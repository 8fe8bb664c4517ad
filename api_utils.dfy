/**
 * `createOptimizedResponse` and its two wrappers: a JSON payload, a status and
 * a header table computed from the caller's headers and a cache policy.
 *
 * Headers are held as the Fetch `Headers` object holds them: by lower-cased
 * name, with values trimmed of HTTP whitespace, `append` joining a repeated
 * name's values by ", " and `set` replacing them. The TypeError `Headers`
 * raises for an invalid name or value is not modelled.
 */
module ApiUtils {
  import opened Common

  datatype CacheOption =
    | NoCache
    | Public
    | Private
    | Custom(maxAge: int, staleWhileRevalidate: Option<int>)

  /** Every field may be left out; `createOptimizedResponse` fills in the defaults. */
  datatype Options = Options(status: Option<int>, cache: Option<CacheOption>, headers: Option<seq<(string, string)>>)

  datatype JsonResponse<T> = JsonResponse(status: int, headers: map<string, string>, data: T)

  datatype ErrorPayload = ErrorPayload(error: string)

  const NoStore := "no-store, no-cache, must-revalidate, proxy-revalidate"

  function LowerChar(c: char): char {
    if 'A' <= c <= 'Z' then (c as int + 32) as char else c
  }

  /** ASCII lower-casing, as `Headers` normalises names. */
  function Lower(s: string): (r: string)
    ensures |r| == |s|
    ensures forall i :: 0 <= i < |s| ==> r[i] == LowerChar(s[i])
  {
    if s == [] then [] else [LowerChar(s[0])] + Lower(s[1..])
  }

  /** Tab, line feed, carriage return and space. */
  predicate IsHttpWhitespace(c: char) {
    c == ' ' || c == '\t' || c == '\n' || c == '\r'
  }

  /** Drops the leading HTTP whitespace. */
  function TrimStart(s: string): (r: string)
    ensures |r| <= |s|
    ensures r != [] ==> !IsHttpWhitespace(r[0])
  {
    if s != [] && IsHttpWhitespace(s[0]) then TrimStart(s[1..]) else s
  }

  /** Drops the trailing HTTP whitespace. */
  function TrimEnd(s: string): (r: string)
    ensures |r| <= |s|
    ensures r != [] ==> r[0] == s[0] && !IsHttpWhitespace(r[|r| - 1])
  {
    if s != [] && IsHttpWhitespace(s[|s| - 1]) then TrimEnd(s[..|s| - 1]) else s
  }

  /** The value normalisation of `Headers`: leading and trailing HTTP whitespace removed. */
  function Trim(s: string): (r: string)
    ensures |r| <= |s|
    ensures r != [] ==> !IsHttpWhitespace(r[0]) && !IsHttpWhitespace(r[|r| - 1])
    // A value without whitespace at either end is kept as it is.
    ensures s == [] || (!IsHttpWhitespace(s[0]) && !IsHttpWhitespace(s[|s| - 1])) ==> r == s
  {
    TrimEnd(TrimStart(s))
  }

  /** `Headers.append` of a normalised value: joined to any earlier value of that name. */
  function Append(h: map<string, string>, name: string, value: string): map<string, string> {
    var key := Lower(name);
    if key in h then h[key := h[key] + ", " + value] else h[key := value]
  }

  /** The i-th custom header is the only one whose name lower-cases to its key. */
  predicate SoleName(pairs: seq<(string, string)>, i: int)
    requires 0 <= i < |pairs|
  {
    forall j :: 0 <= j < |pairs| && j != i ==> Lower(pairs[j].0) != Lower(pairs[i].0)
  }

  /** The entries appended in order, with their values as given. */
  function AppendAll(pairs: seq<(string, string)>): (h: map<string, string>)
    ensures forall i :: 0 <= i < |pairs| ==> Lower(pairs[i].0) in h
    ensures forall k :: k in h ==> exists i :: 0 <= i < |pairs| && Lower(pairs[i].0) == k
    decreases |pairs|
  {
    if pairs == [] then map[]
    else
      var last := pairs[|pairs| - 1];
      var h := Append(AppendAll(pairs[..|pairs| - 1]), last.0, last.1);
      assert forall i :: 0 <= i < |pairs| - 1 ==> pairs[..|pairs| - 1][i] == pairs[i];
      h
  }

  /** Appending under another name leaves a key as it was. */
  lemma AppendOther(h: map<string, string>, name: string, value: string, key: string)
    requires key in h && key != Lower(name)
    ensures key in Append(h, name, value) && Append(h, name, value)[key] == h[key]
  {
  }

  /** No earlier entry lower-cases to the key of a name that occurs once. */
  lemma {:induction false} NoEarlierName(pairs: seq<(string, string)>, i: int)
    requires 0 <= i < |pairs| && SoleName(pairs, i)
    ensures Lower(pairs[i].0) !in AppendAll(pairs[..i])
  {
    var init := pairs[..i];
    forall j | 0 <= j < |init|
      ensures Lower(init[j].0) != Lower(pairs[i].0)
    {
      assert init[j] == pairs[j];
    }
  }

  /** An entry whose name occurs once keeps its value in `AppendAll`. */
  lemma {:induction false} SoleNameAppended(pairs: seq<(string, string)>, i: int)
    requires 0 <= i < |pairs| && SoleName(pairs, i)
    ensures AppendAll(pairs)[Lower(pairs[i].0)] == pairs[i].1
    decreases |pairs|
  {
    var init := pairs[..|pairs| - 1];
    var last := pairs[|pairs| - 1];
    assert AppendAll(pairs) == Append(AppendAll(init), last.0, last.1);
    if i == |pairs| - 1 {
      NoEarlierName(pairs, i);
    } else {
      assert init[i] == pairs[i];
      forall j | 0 <= j < |init| && j != i
        ensures Lower(init[j].0) != Lower(init[i].0)
      {
        assert init[j] == pairs[j];
      }
      SoleNameAppended(init, i);
      AppendOther(AppendAll(init), last.0, last.1, Lower(pairs[i].0));
    }
  }

  /** The entries with their values trimmed, as `Headers` normalises them. */
  function Normalized(pairs: seq<(string, string)>): (r: seq<(string, string)>)
    ensures |r| == |pairs|
    ensures forall i :: 0 <= i < |pairs| ==> r[i].0 == pairs[i].0 && r[i].1 == Trim(pairs[i].1)
  {
    seq(|pairs|, i requires 0 <= i < |pairs| => (pairs[i].0, Trim(pairs[i].1)))
  }

  /** `new Headers(record)`: the record's entries, values trimmed, appended in order. */
  function FromRecord(pairs: seq<(string, string)>): (h: map<string, string>)
    ensures forall i :: 0 <= i < |pairs| ==> Lower(pairs[i].0) in h
    ensures forall k :: k in h ==> exists i :: 0 <= i < |pairs| && Lower(pairs[i].0) == k
  {
    var n := Normalized(pairs);
    assert forall i :: 0 <= i < |pairs| ==> Lower(n[i].0) == Lower(pairs[i].0);
    AppendAll(n)
  }

  /** A custom header whose name occurs once keeps its value, trimmed, in `new Headers(record)`. */
  lemma SoleNameKept(pairs: seq<(string, string)>, i: int)
    requires 0 <= i < |pairs| && SoleName(pairs, i)
    ensures FromRecord(pairs)[Lower(pairs[i].0)] == Trim(pairs[i].1)
  {
    var n := Normalized(pairs);
    assert SoleName(n, i);
    SoleNameAppended(n, i);
  }

  /** A padded value is stored without its padding: `" v"` under `X-A` reads back as `"v"`. */
  lemma PaddingTrimmed()
    ensures "x-a" in FromRecord([("X-A", " v")]) && FromRecord([("X-A", " v")])["x-a"] == "v"
  {
    var pairs := [("X-A", " v")];
    SoleNameKept(pairs, 0);
    assert Lower("X-A") == "x-a" by {
      assert Lower("X-A") == [LowerChar('X')] + Lower("-A");
      assert Lower("-A") == [LowerChar('-')] + Lower("A");
      assert Lower("A") == [LowerChar('A')] + Lower("");
    }
    assert Trim(" v") == "v" by {
      assert " v"[1..] == "v";
      assert TrimStart(" v") == "v";
    }
  }

  function DigitChar(d: int): char
    requires 0 <= d < 10
  {
    "0123456789"[d]
  }

  /** Decimal digits of a natural number, most significant first, no leading zero. */
  function NatToString(n: nat): (s: string)
    ensures |s| > 0 && forall i :: 0 <= i < |s| ==> IsDigit(s[i])
    ensures |s| > 1 ==> s[0] != '0'
  {
    if n < 10 then [DigitChar(n)] else NatToString(n / 10) + [DigitChar(n % 10)]
  }

  /** `${n}` for an integer-valued number. */
  function IntToString(n: int): (s: string)
    ensures IsIntString(s)
    ensures n < 0 <==> s[0] == '-'
  {
    if n < 0 then "-" + NatToString(-n) else NatToString(n)
  }

  predicate AllDigits(s: string) {
    forall i :: 0 <= i < |s| ==> IsDigit(s[i])
  }

  /** The shape `${n}` has for an integer: an optional minus sign, then digits. */
  predicate IsIntString(s: string) {
    |s| > 0 && if s[0] == '-' then |s| > 1 && AllDigits(s[1..]) else AllDigits(s)
  }

  function ParseNat(s: string): nat
    requires AllDigits(s)
  {
    if s == [] then 0
    else
      var d := s[|s| - 1];
      assert IsDigit(d);
      ParseNat(s[..|s| - 1]) * 10 + (d as int - '0' as int)
  }

  function ParseInt(s: string): int
    requires IsIntString(s)
  {
    if s[0] == '-' then 0 - ParseNat(s[1..]) else ParseNat(s)
  }

  lemma {:induction false} NatRoundTrip(n: nat)
    ensures AllDigits(NatToString(n)) && ParseNat(NatToString(n)) == n
  {
    var s := NatToString(n);
    if n >= 10 {
      NatRoundTrip(n / 10);
      assert s[..|s| - 1] == NatToString(n / 10);
    }
  }

  /** The number written into the header reads back as the number given. */
  lemma IntRoundTrip(n: int)
    ensures IsIntString(IntToString(n)) && ParseInt(IntToString(n)) == n
  {
    var s := IntToString(n);
    if n < 0 {
      NatRoundTrip(-n);
      assert s[1..] == NatToString(-n);
    } else {
      NatRoundTrip(n);
    }
  }

  /** The Cache-Control value each policy sets. */
  function CacheControl(cache: CacheOption): (v: string)
    // The shared and custom policies are public, the private one is not.
    ensures cache.Public? || cache.Custom? ==> |v| > 16 && v[..16] == "public, max-age="
    ensures cache.Private? ==> |v| > 17 && v[..17] == "private, max-age="
    ensures cache == Public ==> v == "public, max-age=60, stale-while-revalidate=30"
    ensures cache == Private ==> v == "private, max-age=60"
    ensures cache.NoCache? ==> v == NoStore
  {
    match cache
    case NoCache => NoStore
    case Public => "public, max-age=60, stale-while-revalidate=30"
    case Private => "private, max-age=60"
    case Custom(maxAge, swr) =>
      var prefix := "public, max-age=";
      var v := prefix + IntToString(maxAge)
        + (if swr.Some? && swr.value != 0 then ", stale-while-revalidate=" + IntToString(swr.value) else "");
      assert v[..|prefix|] == prefix;
      v
  }

  /** The header names a policy writes. */
  function PolicyNames(cache: CacheOption): set<string> {
    if cache == NoCache then {"cache-control", "pragma", "expires"} else {"cache-control"}
  }

  function ApplyCache(h: map<string, string>, cache: CacheOption): (r: map<string, string>)
    // The policy's headers are written over the caller's; every other header is kept as given.
    ensures r.Keys == h.Keys + PolicyNames(cache)
    ensures r["cache-control"] == CacheControl(cache)
    ensures cache == NoCache ==> r["pragma"] == "no-cache" && r["expires"] == "0"
    ensures forall k :: k in h && k !in PolicyNames(cache) ==> r[k] == h[k]
  {
    // `set("Cache-Control", ...)` and friends, with the names as `Headers` stores them.
    if cache == NoCache then h["cache-control" := NoStore]["pragma" := "no-cache"]["expires" := "0"]
    else h["cache-control" := CacheControl(cache)]
  }

  function CreateOptimizedResponse<T>(data: T, options: Options): (r: JsonResponse<T>)
    ensures r.data == data
    // Status 200 and no-cache unless the caller says otherwise.
    ensures r.status == if options.status.Some? then options.status.value else 200
    ensures var custom := FromRecord(if options.headers.Some? then options.headers.value else []);
      var cache := if options.cache.Some? then options.cache.value else NoCache;
      && r.headers.Keys == custom.Keys + PolicyNames(cache)
      && forall k :: k in custom && k !in PolicyNames(cache) ==> r.headers[k] == custom[k]
    // A custom header named once, and not one the policy writes, keeps its trimmed value.
    ensures var pairs := if options.headers.Some? then options.headers.value else [];
      var cache := if options.cache.Some? then options.cache.value else NoCache;
      forall i :: 0 <= i < |pairs| && SoleName(pairs, i) && Lower(pairs[i].0) !in PolicyNames(cache) ==>
        r.headers[Lower(pairs[i].0)] == Trim(pairs[i].1)
    ensures var cache := if options.cache.Some? then options.cache.value else NoCache;
      && "cache-control" in r.headers && r.headers["cache-control"] == CacheControl(cache)
      && (cache == NoCache ==> r.headers["pragma"] == "no-cache" && r.headers["expires"] == "0")
  {
    var status := if options.status.Some? then options.status.value else 200;
    var cache := if options.cache.Some? then options.cache.value else NoCache;
    var custom := if options.headers.Some? then options.headers.value else [];
    assert forall i :: 0 <= i < |custom| && SoleName(custom, i) ==> FromRecord(custom)[Lower(custom[i].0)] == Trim(custom[i].1) by {
      forall i | 0 <= i < |custom| && SoleName(custom, i) {
        SoleNameKept(custom, i);
      }
    }
    JsonResponse(status, ApplyCache(FromRecord(custom), cache), data)
  }

  /** Errors are never cached: exactly the three no-cache headers and an `{error}` body. */
  function CreateErrorResponse(error: string, status: int): (r: JsonResponse<ErrorPayload>)
    ensures r.status == status && r.data == ErrorPayload(error)
    ensures r.headers == map["cache-control" := NoStore, "pragma" := "no-cache", "expires" := "0"]
  {
    var r := CreateOptimizedResponse(ErrorPayload(error), Options(Some(status), Some(NoCache), None));
    assert r.headers.Keys == {"cache-control", "pragma", "expires"};
    r
  }

  /** Status and cache pass through; left out, they default to 200 and no-cache. */
  function CreateSuccessResponse<T>(data: T, status: Option<int>, cache: Option<CacheOption>): (r: JsonResponse<T>)
    ensures r.data == data
    ensures r.status == if status.Some? then status.value else 200
    ensures r.headers.Keys == PolicyNames(if cache.Some? then cache.value else NoCache)
    ensures r.headers["cache-control"] == CacheControl(if cache.Some? then cache.value else NoCache)
  {
    CreateOptimizedResponse(data, Options(Some(if status.Some? then status.value else 200),
                                          Some(if cache.Some? then cache.value else NoCache), None))
  }

  /**
   * A custom policy's header reads back: after `public, max-age=` comes the
   * maximum age, and the stale-while-revalidate directive follows exactly
   * when that option is present and non-zero, carrying its value.
   */
  lemma CustomReadsBack(maxAge: int, swr: Option<int>)
    ensures var v := CacheControl(Custom(maxAge, swr)); var n := 16 + |IntToString(maxAge)|;
      && n <= |v| && v[..16] == "public, max-age=" && IsIntString(v[16..n]) && ParseInt(v[16..n]) == maxAge
      && (swr.Some? && swr.value != 0 <==> |v| > n)
      && (swr.Some? && swr.value != 0 ==>
            n + 25 < |v| && v[n..n + 25] == ", stale-while-revalidate="
            && IsIntString(v[n + 25..]) && ParseInt(v[n + 25..]) == swr.value)
  {
    var v := CacheControl(Custom(maxAge, swr));
    var n := 16 + |IntToString(maxAge)|;
    IntRoundTrip(maxAge);
    assert v[16..n] == IntToString(maxAge);
    if swr.Some? && swr.value != 0 {
      IntRoundTrip(swr.value);
      assert v[n..n + 25] == ", stale-while-revalidate=";
      assert v[n + 25..] == IntToString(swr.value);
    }
  }

  /** A zero or absent stale-while-revalidate drops the directive altogether. */
  lemma SwrZeroDropped(maxAge: int)
    ensures CacheControl(Custom(maxAge, Some(0))) == CacheControl(Custom(maxAge, None))
    ensures CacheControl(Custom(maxAge, None)) == "public, max-age=" + IntToString(maxAge)
  {
  }
}
