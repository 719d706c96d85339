/** The request helpers the Spin handlers share: the header pair list as a
    map, the path segments after the component route, and the query string
    parameters, read from the headers the Spin runtime adds to a request. */
module SpinUtils {
  import opened Wrappers
  import opened Strings

  type Headers = map<string, string>

  const FullUrlHeader: string := "spin-full-url"
  const ComponentRouteHeader: string := "spin-component-route"
  const PathInfoHeader: string := "spin-path-info"

  /** `pairs[i]` is the last pair with its name. */
  predicate IsLastOfName(pairs: seq<(string, string)>, i: nat)
    requires i < |pairs|
  {
    forall j :: i < j < |pairs| ==> pairs[j].0 != pairs[i].0
  }

  /** The dict-building loop of `parse_spin_headers`, also run by
      `get_query_params_from_header_dict` over its key/value pairs: each
      pair's name maps to its value, a later pair overwriting an earlier one
      with the same name. */
  function PairsToMap(pairs: seq<(string, string)>): (m: map<string, string>)
    ensures forall name :: name in m <==> exists i :: 0 <= i < |pairs| && pairs[i].0 == name
    ensures forall i :: 0 <= i < |pairs| && IsLastOfName(pairs, i) ==> m[pairs[i].0] == pairs[i].1
  {
    if |pairs| == 0 then map[]
    else
      var m := PairsToMap(pairs[..|pairs| - 1]);
      PairsSnoc(pairs, m);
      m[pairs[|pairs| - 1].0 := pairs[|pairs| - 1].1]
  }

  /** One more pair: its name maps to its value, and every other name keeps
      the value of its last earlier pair. */
  lemma PairsSnoc(pairs: seq<(string, string)>, m: map<string, string>)
    requires |pairs| > 0
    requires var init := pairs[..|pairs| - 1];
      && (forall name :: name in m <==> exists i :: 0 <= i < |init| && init[i].0 == name)
      && (forall i :: 0 <= i < |init| && IsLastOfName(init, i) ==> m[init[i].0] == init[i].1)
    ensures var m' := m[pairs[|pairs| - 1].0 := pairs[|pairs| - 1].1];
      && (forall name :: name in m' <==> exists i :: 0 <= i < |pairs| && pairs[i].0 == name)
      && (forall i :: 0 <= i < |pairs| && IsLastOfName(pairs, i) ==> m'[pairs[i].0] == pairs[i].1)
  {
    SnocNames(pairs, m);
    SnocValues(pairs, m);
  }

  lemma SnocNames(pairs: seq<(string, string)>, m: map<string, string>)
    requires |pairs| > 0
    requires var init := pairs[..|pairs| - 1];
      forall name :: name in m <==> exists i :: 0 <= i < |init| && init[i].0 == name
    ensures var m' := m[pairs[|pairs| - 1].0 := pairs[|pairs| - 1].1];
      forall name :: name in m' <==> exists i :: 0 <= i < |pairs| && pairs[i].0 == name
  {
    var init := pairs[..|pairs| - 1];
    var n := |pairs| - 1;
    var m' := m[pairs[n].0 := pairs[n].1];
    forall name | name in m'
      ensures exists i :: 0 <= i < |pairs| && pairs[i].0 == name
    {
      if name != pairs[n].0 {
        var i :| 0 <= i < |init| && init[i].0 == name;
        assert pairs[i] == init[i];
      }
    }
    forall i | 0 <= i < |pairs|
      ensures pairs[i].0 in m'
    {
      if i < n {
        assert init[i] == pairs[i];
      }
    }
  }

  lemma SnocValues(pairs: seq<(string, string)>, m: map<string, string>)
    requires |pairs| > 0
    requires var init := pairs[..|pairs| - 1];
      && (forall i :: 0 <= i < |init| ==> init[i].0 in m)
      && (forall i :: 0 <= i < |init| && IsLastOfName(init, i) ==> m[init[i].0] == init[i].1)
    ensures var m' := m[pairs[|pairs| - 1].0 := pairs[|pairs| - 1].1];
      forall i :: 0 <= i < |pairs| && IsLastOfName(pairs, i) ==> m'[pairs[i].0] == pairs[i].1
  {
    var init := pairs[..|pairs| - 1];
    var n := |pairs| - 1;
    var m' := m[pairs[n].0 := pairs[n].1];
    forall i | 0 <= i < |pairs| && IsLastOfName(pairs, i)
      ensures m'[pairs[i].0] == pairs[i].1
    {
      if i < n {
        assert init[i] == pairs[i];
        assert IsLastOfName(init, i) by {
          forall j | i < j < |init|
            ensures init[j].0 != init[i].0
          {
            assert init[j] == pairs[j];
          }
        }
      }
    }
  }


  /** Every name gets the value of its last pair, wherever it occurs. */
  lemma {:induction false} PairsToMapLastWins(pairs: seq<(string, string)>, name: string, i: nat)
    requires i < |pairs| && pairs[i].0 == name
    ensures exists j :: i <= j < |pairs| && pairs[j].0 == name && PairsToMap(pairs)[name] == pairs[j].1
    decreases |pairs| - i
  {
    if !IsLastOfName(pairs, i) {
      var j :| i < j < |pairs| && pairs[j].0 == name;
      PairsToMapLastWins(pairs, name, j);
    }
  }

  /** `parse_spin_headers`: the request's header pairs as a map. */
  function ParseSpinHeaders(headers: seq<(string, string)>): (m: Headers)
    ensures forall name :: name in m <==> exists i :: 0 <= i < |headers| && headers[i].0 == name
    ensures forall i :: 0 <= i < |headers| && IsLastOfName(headers, i) ==> m[headers[i].0] == headers[i].1
  {
    PairsToMap(headers)
  }

  /** `get_path_params_from_spin_path_info`: leading slashes removed, the
      rest split on `/`. There is always at least one segment, and the
      segments joined by `/` give the path back without its leading
      slashes. */
  function PathParams(pathInfo: string): (segs: seq<string>)
    ensures |segs| >= 1
    ensures forall k :: 0 <= k < |segs| ==> '/' !in segs[k]
    ensures exists n :: (0 <= n <= |pathInfo|
      && (forall i :: 0 <= i < n ==> pathInfo[i] == '/')
      && (n == |pathInfo| || pathInfo[n] != '/')
      && pathInfo[n..] == Join(segs, "/"))
    ensures segs[0] == "" <==> forall i :: 0 <= i < |pathInfo| ==> pathInfo[i] == '/'
  {
    var rest := LStrip(pathInfo, '/');
    PathSegments(pathInfo, rest);
    Split(rest, "/")
  }

  /** The facts `PathParams` promises, about the stripped path `rest`. */
  lemma PathSegments(pathInfo: string, rest: string)
    requires rest == LStrip(pathInfo, '/')
    ensures forall k :: 0 <= k < |Split(rest, "/")| ==> '/' !in Split(rest, "/")[k]
    ensures pathInfo[|pathInfo| - |rest|..] == Join(Split(rest, "/"), "/")
    ensures forall i :: 0 <= i < |pathInfo| - |rest| ==> pathInfo[i] == '/'
    ensures |rest| == 0 || pathInfo[|pathInfo| - |rest|] != '/'
    ensures Split(rest, "/")[0] == "" <==> forall i :: 0 <= i < |pathInfo| ==> pathInfo[i] == '/'
  {
    var segs := Split(rest, "/");
    forall k | 0 <= k < |segs|
      ensures '/' !in segs[k]
    {
      ContainsChar(segs[k], '/');
    }
    if |rest| > 0 {
      FirstSegment(rest, segs);
      assert pathInfo[|pathInfo| - |rest|] != '/';
    }
  }

  /** The first segment of a split that does not start with `/` is empty
      only when there is nothing to split. */
  lemma FirstSegment(rest: string, segs: seq<string>)
    requires |rest| > 0 && rest[0] != '/' && segs == Split(rest, "/")
    ensures segs[0] != ""
  {
    if |segs| > 1 {
      assert Join(segs, "/") == segs[0] + "/" + Join(segs[1..], "/");
    }
  }

  /** A path of slashes only, such as the `"/"` of a request to the route
      itself, has the single empty segment. */
  lemma PathParamsSlashesOnly(pathInfo: string)
    requires forall i :: 0 <= i < |pathInfo| ==> pathInfo[i] == '/'
    ensures PathParams(pathInfo) == [""]
  {
  }

  /** A path of non-empty-first segments without `/`, after any number of
      leading slashes, splits back into those segments. */
  lemma PathParamsRoundTrip(slashes: nat, segs: seq<string>)
    requires |segs| >= 1 && segs[0] != ""
    requires forall k :: 0 <= k < |segs| ==> '/' !in segs[k]
    ensures PathParams(seq(slashes, _ => '/') + Join(segs, "/")) == segs
  {
    var lead := seq(slashes, _ => '/');
    var joined := Join(segs, "/");
    assert joined[0] == segs[0][0] by {
      if |segs| > 1 {
        assert joined == segs[0] + "/" + Join(segs[1..], "/");
      }
    }
    LStripExact(lead, joined, '/');
    SplitJoinChar(segs, '/');
  }

  /** Why a query string cannot be read: the route does not occur in the
      URL (an `IndexError` from the `[1]` after splitting on the route),
      no `?` follows the route, as in a URL that ends with the route (an
      `IndexError` from the `[1]` after splitting on `?`), or a
      `&`-separated pair does not split on `=` into exactly a key and a
      value (a `ValueError` from the unpacking), recorded with the number of
      pieces it split into. */
  datatype QueryError = RouteNotInUrl | NoQueryMark | BadPair(pair: string, pieces: nat)

  /** `key, value = pair.split("=")`: the two pieces around the only `=`,
      or the error the unpacking raises. */
  function KeyValue(pair: string): (r: Result<(string, string), QueryError>)
    ensures r.Success? <==> |Split(pair, "=")| == 2
    ensures r.Success? ==> pair == r.value.0 + "=" + r.value.1 && '=' !in r.value.0 && '=' !in r.value.1
    ensures r.Failure? ==> r.error == BadPair(pair, |Split(pair, "=")|)
  {
    var pieces := Split(pair, "=");
    if |pieces| != 2 then Failure(BadPair(pair, |pieces|))
    else
      ContainsChar(pieces[0], '=');
      ContainsChar(pieces[1], '=');
      Success((pieces[0], pieces[1]))
  }

  /** A key and a value without `=` are read back from `key=value`. */
  lemma KeyValueRoundTrip(key: string, value: string)
    requires '=' !in key && '=' !in value
    ensures KeyValue(key + "=" + value) == Success((key, value))
  {
    assert Join([key, value], "=") == key + "=" + value;
    SplitJoinChar([key, value], '=');
  }

  /** The loop over the `&`-separated pairs of a query string: each pair
      read in order, the first that is not `key=value` aborting the loop. */
  function KeyValuePairs(pairs: seq<string>): (r: Result<seq<(string, string)>, QueryError>)
    ensures r.Success? <==> forall i :: 0 <= i < |pairs| ==> KeyValue(pairs[i]).Success?
    ensures r.Success? ==> |r.value| == |pairs| && forall i :: 0 <= i < |pairs| ==> KeyValue(pairs[i]) == Success(r.value[i])
    ensures r.Failure? ==> exists i :: (0 <= i < |pairs| && KeyValue(pairs[i]) == Failure(r.error)
      && forall j :: 0 <= j < i ==> KeyValue(pairs[j]).Success?)
  {
    if |pairs| == 0 then Success([])
    else
      match KeyValue(pairs[0])
      case Failure(e) => Failure(e)
      case Success(kv) =>
        match KeyValuePairs(pairs[1..])
        case Failure(e) =>
          FirstBadShift(pairs, e);
          Failure(e)
        case Success(kvs) =>
          AllReadShift(pairs, kv, kvs);
          Success([kv] + kvs)
  }

  /** A first pair that is read, before a tail whose pairs all are, makes
      every pair read, in order. */
  lemma AllReadShift(pairs: seq<string>, kv: (string, string), kvs: seq<(string, string)>)
    requires |pairs| > 0 && KeyValue(pairs[0]) == Success(kv)
    requires |kvs| == |pairs| - 1
    requires forall i :: 0 <= i < |pairs[1..]| ==> KeyValue(pairs[1..][i]) == Success(kvs[i])
    ensures forall i :: 0 <= i < |pairs| ==> KeyValue(pairs[i]) == Success(([kv] + kvs)[i])
  {
    forall i | 0 <= i < |pairs|
      ensures KeyValue(pairs[i]) == Success(([kv] + kvs)[i])
    {
      if i > 0 {
        assert pairs[i] == pairs[1..][i - 1];
      }
    }
  }

  /** The first pair that fails in the tail, after a first pair that is
      read, is the first that fails in the whole. */
  lemma FirstBadShift(pairs: seq<string>, e: QueryError)
    requires |pairs| > 0 && KeyValue(pairs[0]).Success?
    requires exists i :: (0 <= i < |pairs[1..]| && KeyValue(pairs[1..][i]) == Failure(e)
      && forall j :: 0 <= j < i ==> KeyValue(pairs[1..][j]).Success?)
    ensures exists i :: (0 <= i < |pairs| && KeyValue(pairs[i]) == Failure(e)
      && forall j :: 0 <= j < i ==> KeyValue(pairs[j]).Success?)
  {
    var i :| 0 <= i < |pairs[1..]| && KeyValue(pairs[1..][i]) == Failure(e)
      && forall j :: 0 <= j < i ==> KeyValue(pairs[1..][j]).Success?;
    assert pairs[i + 1] == pairs[1..][i];
    forall j | 0 <= j < i + 1
      ensures KeyValue(pairs[j]).Success?
    {
      if j > 0 {
        assert pairs[j] == pairs[1..][j - 1];
      }
    }
  }

  /** The header's value when it is present and not empty: the truthiness
      test on `headers.get(name)`. */
  predicate HasValue(headers: Headers, name: string) {
    name in headers && headers[name] != ""
  }

  /** The query string `full_url.split(component_route)[1].split("?")[1]`
      picks out: the text between the first occurrence of the route and
      the next, then between the first `?` in it and the next; `None` where
      Python raises `IndexError`. */
  function QueryText(url: string, route: string): (q: Option<string>)
    requires route != ""
    ensures q.Some? <==> Contains(url, route) && Contains(Split(url, route)[1], "?")
  {
    var byRoute := Split(url, route);
    if |byRoute| < 2 then None
    else
      var byMark := Split(byRoute[1], "?");
      if |byMark| < 2 then None else Some(byMark[1])
  }

  /** A URL `before + route + lead + "?" + query + tail + rest`, where the
      route first occurs after `before` and not again before `rest`, `rest`
      is empty or starts with the route again, `lead` and `query` hold no
      `?` and `tail` is empty or starts with `?`, has the query string
      `query`: whatever follows a second occurrence of the route, or a
      second `?`, is dropped. */
  lemma QueryTextBetween(url: string, route: string, before: string, lead: string, query: string,
                         tail: string, rest: string)
    requires route != ""
    requires url == before + route + (lead + "?" + query + tail) + rest
    requires forall i :: 0 <= i < |before| + |route| + |lead + "?" + query + tail| ==>
      (OccursAt(url, route, i) ==> i == |before|)
    requires rest == "" || OccursAt(rest, route, 0)
    requires '?' !in lead && '?' !in query
    requires tail == "" || tail[0] == '?'
    ensures QueryText(url, route) == Some(query)
  {
    var after := lead + "?" + query + tail;
    SecondPiece(url, route, before, after, rest);
    assert after == lead + "?" + query + tail;
    forall i | 0 <= i < |lead| + 1 + |query| && OccursAt(after, "?", i)
      ensures i == |lead|
    {
      OccursAtChar(after, '?', i);
    }
    if tail != "" {
      OccursAtChar(tail, '?', 0);
    }
    SecondPiece(after, "?", lead, query, tail);
  }

  /** The loop of `get_query_params_from_header_dict` over a query
      string: it is split on `&` into pairs, and it reads exactly when every
      pair splits on `=` into a key and a value, otherwise the first pair
      that does not is the error; a name is then a parameter exactly when it
      is the key of a pair, and it holds the value of the last pair with
      that key. */
  function ReadQuery(query: string): (r: Result<map<string, string>, QueryError>)
    ensures var pairs := Split(query, "&");
      && (r.Success? <==> forall i :: 0 <= i < |pairs| ==> |Split(pairs[i], "=")| == 2)
      && (r.Failure? ==> exists i :: FirstBadPair(pairs, i) && r.error == BadPair(pairs[i], |Split(pairs[i], "=")|))
      && (r.Success? ==> forall name :: name in r.value <==> exists i :: 0 <= i < |pairs| && Split(pairs[i], "=")[0] == name)
      && (r.Success? ==> forall i :: 0 <= i < |pairs| && IsLastKey(pairs, i) ==>
        r.value[Split(pairs[i], "=")[0]] == Split(pairs[i], "=")[1])
  {
    var pairs := Split(query, "&");
    match KeyValuePairs(pairs)
    case Failure(e) =>
      FirstBadOf(pairs, e);
      Failure(e)
    case Success(kvs) =>
      PairsRead(pairs, kvs);
      PairsMap(pairs, kvs);
      Success(PairsToMap(kvs))
  }

  /** The error the pair loop stops with names its first bad pair. */
  lemma FirstBadOf(pairs: seq<string>, e: QueryError)
    requires KeyValuePairs(pairs) == Failure(e)
    ensures exists i :: FirstBadPair(pairs, i) && e == BadPair(pairs[i], |Split(pairs[i], "=")|)
  {
    var i :| 0 <= i < |pairs| && KeyValue(pairs[i]) == Failure(e)
      && forall j :: 0 <= j < i ==> KeyValue(pairs[j]).Success?;
    assert FirstBadPair(pairs, i);
  }

  /** `pairs[i]` is the first pair that does not split into a key and a
      value. */
  predicate FirstBadPair(pairs: seq<string>, i: int) {
    && 0 <= i < |pairs| && |Split(pairs[i], "=")| != 2
    && forall j :: 0 <= j < i ==> |Split(pairs[j], "=")| == 2
  }

  /** The map of the pairs read from `pairs`, in terms of `pairs`. */
  lemma PairsMap(pairs: seq<string>, kvs: seq<(string, string)>)
    requires |kvs| == |pairs|
    requires forall i :: 0 <= i < |pairs| ==>
      |Split(pairs[i], "=")| == 2 && kvs[i] == (Split(pairs[i], "=")[0], Split(pairs[i], "=")[1])
    ensures var m := PairsToMap(kvs);
      && (forall name :: name in m <==> exists i :: 0 <= i < |pairs| && Split(pairs[i], "=")[0] == name)
      && (forall i :: 0 <= i < |pairs| && IsLastKey(pairs, i) ==> m[Split(pairs[i], "=")[0]] == Split(pairs[i], "=")[1])
  {
    var m := PairsToMap(kvs);
    forall name
      ensures name in m <==> exists i :: 0 <= i < |pairs| && Split(pairs[i], "=")[0] == name
    {
      if name in m {
        var i :| 0 <= i < |kvs| && kvs[i].0 == name;
        assert Split(pairs[i], "=")[0] == name;
      }
    }
    forall i | 0 <= i < |pairs| && IsLastKey(pairs, i)
      ensures m[Split(pairs[i], "=")[0]] == Split(pairs[i], "=")[1]
    {
      assert IsLastOfName(kvs, i);
    }
  }

  /** The pairs the loop reads are the pieces around each `=`. */
  lemma PairsRead(pairs: seq<string>, kvs: seq<(string, string)>)
    requires |kvs| == |pairs| && forall i :: 0 <= i < |pairs| ==> KeyValue(pairs[i]) == Success(kvs[i])
    ensures forall i :: 0 <= i < |pairs| ==>
      |Split(pairs[i], "=")| == 2 && kvs[i] == (Split(pairs[i], "=")[0], Split(pairs[i], "=")[1])
  {
    forall i | 0 <= i < |pairs|
      ensures kvs[i] == (Split(pairs[i], "=")[0], Split(pairs[i], "=")[1])
    {
      assert KeyValue(pairs[i]) == Success(kvs[i]);
    }
  }

  /** No later pair has the key of `pairs[i]`. */
  predicate IsLastKey(pairs: seq<string>, i: nat)
    requires i < |pairs|
  {
    forall j :: i < j < |pairs| ==> Split(pairs[j], "=")[0] != Split(pairs[i], "=")[0]
  }

  /** `get_query_params_from_header_dict`: with both the full URL and the
      component route present and non-empty, a URL without the route, or
      without `?` after it, is an error, and otherwise its query string is
      read; with either header missing or empty there are no parameters at
      all. */
  function QueryParams(headers: Headers): (r: Result<map<string, string>, QueryError>)
    ensures !HasValue(headers, FullUrlHeader) || !HasValue(headers, ComponentRouteHeader) ==> r == Success(map[])
    ensures HasValue(headers, FullUrlHeader) && HasValue(headers, ComponentRouteHeader) ==>
      var url := headers[FullUrlHeader];
      var route := headers[ComponentRouteHeader];
      && (r == Failure(RouteNotInUrl) <==> !Contains(url, route))
      && (Contains(url, route) ==> (r == Failure(NoQueryMark) <==> !Contains(Split(url, route)[1], "?")))
      && (QueryText(url, route).Some? ==> r == ReadQuery(QueryText(url, route).value))
  {
    if HasValue(headers, FullUrlHeader) && HasValue(headers, ComponentRouteHeader) then
      var url := headers[FullUrlHeader];
      var route := headers[ComponentRouteHeader];
      var byRoute := Split(url, route);
      if |byRoute| < 2 then Failure(RouteNotInUrl)
      else
        var byMark := Split(byRoute[1], "?");
        if |byMark| < 2 then Failure(NoQueryMark)
        else ReadQuery(byMark[1])
    else Success(map[])
  }

  /** `key=value` for each pair. */
  function QueryPairs(kvs: seq<(string, string)>): (strs: seq<string>)
    ensures |strs| == |kvs|
    ensures forall i :: 0 <= i < |kvs| ==> strs[i] == kvs[i].0 + "=" + kvs[i].1
  {
    seq(|kvs|, i requires 0 <= i < |kvs| => kvs[i].0 + "=" + kvs[i].1)
  }

  /** A key and a value free of `&`, `=` and `?`. */
  predicate FreeKeyValue(kv: (string, string)) {
    && '&' !in kv.0 && '=' !in kv.0 && '?' !in kv.0
    && '&' !in kv.1 && '=' !in kv.1 && '?' !in kv.1
  }

  /** Free key/value texts read back to their pairs. */
  lemma QueryPairsParse(kvs: seq<(string, string)>)
    requires forall i :: 0 <= i < |kvs| ==> FreeKeyValue(kvs[i])
    ensures KeyValuePairs(QueryPairs(kvs)) == Success(kvs)
  {
    var strs := QueryPairs(kvs);
    forall i | 0 <= i < |kvs|
      ensures KeyValue(strs[i]) == Success(kvs[i])
    {
      KeyValueRoundTrip(kvs[i].0, kvs[i].1);
    }
    var r := KeyValuePairs(strs);
    assert r.Success?;
    assert |r.value| == |kvs|;
    assert forall i :: 0 <= i < |kvs| ==> r.value[i] == kvs[i];
    assert r.value == kvs;
  }

  /** The query string joined from free pairs holds neither a `?` nor,
      inside a pair, a `&`. */
  lemma QueryFree(kvs: seq<(string, string)>)
    requires forall i :: 0 <= i < |kvs| ==> FreeKeyValue(kvs[i])
    ensures forall k :: 0 <= k < |kvs| ==> '&' !in QueryPairs(kvs)[k]
    ensures '?' !in Join(QueryPairs(kvs), "&")
  {
    var strs := QueryPairs(kvs);
    forall k | 0 <= k < |kvs|
      ensures '?' !in strs[k] && '&' !in strs[k]
    {
      assert strs[k] == kvs[k].0 + "=" + kvs[k].1;
    }
    JoinFree(strs, '&', '?');
  }

  /** Joining texts free of `c` with a separator `sep` other than `c`
      gives a text free of `c`. */
  lemma {:induction false} JoinFree(parts: seq<string>, sep: char, c: char)
    requires sep != c
    requires forall k :: 0 <= k < |parts| ==> c !in parts[k]
    ensures c !in Join(parts, [sep])
  {
    if |parts| > 1 {
      JoinFree(parts[1..], sep, c);
    }
  }

  /** The URL a query string is read from: some text, the route, `?`, and
      the `key=value` pairs joined by `&`. */
  function QueryUrl(base: string, route: string, kvs: seq<(string, string)>): string
  {
    base + route + "?" + Join(QueryPairs(kvs), "&")
  }

  /** Reading the query string of a URL `base + route + "?" + query`, where
      the route occurs only there and the query is made of free key/value
      pairs joined by `&`, gives the map of those pairs, later keys winning. */
  lemma QueryParamsRoundTrip(headers: Headers, base: string, route: string, kvs: seq<(string, string)>)
    requires route != "" && |kvs| >= 1
    requires forall i :: 0 <= i < |kvs| ==> FreeKeyValue(kvs[i])
    requires forall i :: OccursAt(QueryUrl(base, route, kvs), route, i) ==> i == |base|
    requires ComponentRouteHeader in headers && headers[ComponentRouteHeader] == route
    requires FullUrlHeader in headers && headers[FullUrlHeader] == QueryUrl(base, route, kvs)
    ensures QueryParams(headers) == Success(PairsToMap(kvs))
  {
    QueryUrlText(base, route, kvs);
    ReadQueryRoundTrip(kvs);
  }

  /** The query string of a query URL is its joined pairs. */
  lemma QueryUrlText(base: string, route: string, kvs: seq<(string, string)>)
    requires route != ""
    requires forall i :: 0 <= i < |kvs| ==> FreeKeyValue(kvs[i])
    requires forall i :: OccursAt(QueryUrl(base, route, kvs), route, i) ==> i == |base|
    ensures QueryText(QueryUrl(base, route, kvs), route) == Some(Join(QueryPairs(kvs), "&"))
  {
    var query := Join(QueryPairs(kvs), "&");
    QueryFree(kvs);
    QueryUrlParts(base, route, query);
    QueryTextBetween(QueryUrl(base, route, kvs), route, base, "", query, "", "");
  }

  /** The query URL as the parts `QueryTextBetween` names. */
  lemma QueryUrlParts(base: string, route: string, query: string)
    ensures base + route + "?" + query == base + route + ("" + "?" + query + "") + ""
  {
  }

  /** Free key/value pairs joined by `&` read back to their map. */
  lemma ReadQueryRoundTrip(kvs: seq<(string, string)>)
    requires |kvs| >= 1
    requires forall i :: 0 <= i < |kvs| ==> FreeKeyValue(kvs[i])
    ensures ReadQuery(Join(QueryPairs(kvs), "&")) == Success(PairsToMap(kvs))
  {
    QueryFree(kvs);
    SplitJoinChar(QueryPairs(kvs), '&');
    QueryPairsParse(kvs);
  }

  /** An empty query string, as in a URL ending in `?`, is one pair with
      no `=`, so reading it fails. */
  lemma EmptyQueryRejected()
    ensures ReadQuery("") == Failure(BadPair("", 1))
  {
    SplitNone("", "&");
    SplitNone("", "=");
  }

  /** The parts of a request the helpers read; the body is left out. */
  datatype Request = Request(httpMethod: string, uri: string, headers: seq<(string, string)>)

  /** The dict `get_request_info` returns, without the decoded body. */
  datatype RequestInfo = RequestInfo(
    uri: string,
    pathParams: Option<seq<string>>,
    queryParams: map<string, string>,
    headers: Headers)

  /** `get_request_info`: the headers as a map, the path segments when the
      path-info header is present and non-empty, and the query parameters;
      a failure reading the query aborts the call. */
  function GetRequestInfo(request: Request): (r: Result<RequestInfo, QueryError>)
    ensures var headers := ParseSpinHeaders(request.headers);
      && (r.Success? <==> QueryParams(headers).Success?)
      && (r.Success? ==>
        && r.value.uri == request.uri
        && r.value.headers == headers
        && r.value.queryParams == QueryParams(headers).value
        && (r.value.pathParams.None? <==> !HasValue(headers, PathInfoHeader))
        && (r.value.pathParams.Some? ==> r.value.pathParams.value == PathParams(headers[PathInfoHeader])))
  {
    var headers := ParseSpinHeaders(request.headers);
    var pathParams := if HasValue(headers, PathInfoHeader) then Some(PathParams(headers[PathInfoHeader])) else None;
    var queryParams :- QueryParams(headers);
    Success(RequestInfo(request.uri, pathParams, queryParams, headers))
  }
}
