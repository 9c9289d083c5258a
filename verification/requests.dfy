/** Request building (`LoadRunner.BuildRequest`, `LoadRunner.AppendQuery`)
    and the `RequestPayload` record. */
module Requests {
  import opened Wrappers
  import opened Text
  import opened Decimal
  import opened PercentEncoding

  /** An HTTP method, by name. `HttpMethod.Equals` compares names ignoring
      case. */
  datatype HttpMethod = HttpMethod(name: string)

  const Get := HttpMethod("GET")
  const Post := HttpMethod("POST")
  const Put := HttpMethod("PUT")
  const Patch := HttpMethod("PATCH")
  const Delete := HttpMethod("DELETE")

  /** POST, PUT, PATCH and DELETE, in any letter case, send the payload as
      a JSON body; every other method is sent without a body. */
  predicate CarriesBody(m: HttpMethod) {
    AsciiUpper(m.name) in {"POST", "PUT", "PATCH", "DELETE"}
  }

  /** The anonymous `new { thread, index }` object. */
  datatype Inputs = Inputs(thread: int, index: int)

  /** `RequestPayload(MeasurementId, TimestampUtc, Inputs, BootKey)`; the
      nullable members are options, the timestamp is clock ticks. */
  datatype RequestPayload = RequestPayload(
    measurementId: Option<string>,
    timestampUtc: int,
    inputs: Option<Inputs>,
    bootKey: Option<string>)

  /** The request content: none, or the payload serialised as JSON (the
      serialisation itself is the JSON library's business). */
  datatype Content = NoContent | Json(payload: RequestPayload)

  datatype Request = Request(url: string, content: Content)

  // --------------------------------------------------------- measurement id

  /** `$"{workerId:D3}-{idx:D5}"`: for worker ids below 1000 and indices
      below 100000 a fixed-width `DDD-DDDDD`. */
  function MeasurementId(workerId: int, idx: int): (r: string)
    ensures 0 <= workerId < 1000 && 0 <= idx < 100000 ==>
      |r| == 9 && r[3] == '-' && AllDigits(r[..3]) && AllDigits(r[4..])
  {
    assert 0 <= workerId < 1000 && 0 <= idx < 100000 ==> |FormatD(workerId, 3)| == 3 && |FormatD(idx, 5)| == 5 by {
      if 0 <= workerId < 1000 && 0 <= idx < 100000 {
        assert Pow10(3) == 1000 && Pow10(5) == 100000;
        DigitsFit(workerId, 3);
        DigitsFit(idx, 5);
      }
    }
    FormatD(workerId, 3) + "-" + FormatD(idx, 5)
  }

  /** The first position of `c` in `s`. */
  function IndexOf(s: string, c: char): (r: Option<nat>)
    ensures r.Some? ==> r.value < |s| && s[r.value] == c && c !in s[..r.value]
    ensures r.None? ==> c !in s
  {
    if s == [] then None
    else if s[0] == c then Some(0)
    else match IndexOf(s[1..], c)
      case None => None
      case Some(k) => assert s[..k + 1] == [s[0]] + s[1..][..k]; Some(k + 1)
  }

  lemma {:induction false} IndexOfSplit(a: string, c: char, b: string)
    requires c !in a
    ensures IndexOf(a + [c] + b, c) == Some(|a|)
  {
    var s := a + [c] + b;
    if a == [] {
      assert s[0] == c;
    } else {
      assert s[0] == a[0];
      assert s[1..] == a[1..] + [c] + b;
      IndexOfSplit(a[1..], c, b);
    }
  }

  /** Reads a measurement id back into (worker id, index). */
  function ParseMeasurementId(s: string): Option<(int, int)> {
    match IndexOf(s, '-')
    case None => None
    case Some(k) =>
      match (ParseInt(s[..k]), ParseInt(s[k + 1..]))
      case (Some(w), Some(i)) => Some((w, i))
      case _ => None
  }

  lemma NoDashInDigits(w: string)
    requires AllDigits(w)
    ensures '-' !in w
  {
  }

  /** For a non-negative worker id the measurement id is a numeral of at
      least three digits, a '-', and the formatted index; nothing is
      truncated, and both numbers read back. */
  lemma MeasurementIdRoundTrip(workerId: int, idx: int)
    requires workerId >= 0
    ensures ParseMeasurementId(MeasurementId(workerId, idx)) == Some((workerId, idx))
    ensures var w := FormatD(workerId, 3);
      && |w| >= 3 && AllDigits(w)
      && MeasurementId(workerId, idx) == w + "-" + FormatD(idx, 5)
  {
    var w := FormatD(workerId, 3);
    var x := FormatD(idx, 5);
    var m := MeasurementId(workerId, idx);
    NoDashInDigits(w);
    IndexOfSplit(w, '-', x);
    assert m == w + ['-'] + x;
    assert m[..|w|] == w;
    assert m[|w| + 1..] == x;
    FormatRoundTrip(workerId, 3);
    FormatRoundTrip(idx, 5);
  }

  // ------------------------------------------------------------ query string

  predicate IsQuerySeparator(c: char) {
    c == '?' || c == '&'
  }

  /** `AppendQuery(url, name, value)`: nothing happens for a null, empty or
      white-space value; otherwise `url` is extended, never altered, by a
      separator ('&' when `url` already holds a '?', else '?'), the escaped
      name, '=' and the escaped value. */
  function AppendQuery(url: string, name: string, value: Option<string>): (r: string)
    ensures IsNullOrBlank(value) ==> r == url
    ensures |url| <= |r| && r[..|url|] == url
    ensures !IsNullOrBlank(value) ==>
      && |r| > |url|
      && r[|url|] == (if '?' in url then '&' else '?')
  {
    if IsNullOrBlank(value) then url
    else
      var sep := if '?' in url then '&' else '?';
      url + [sep] + EscapeDataString(name) + "=" + EscapeDataString(value.value)
  }

  /** The last position holding '?' or '&'. */
  function LastSeparator(s: string): (r: Option<nat>)
    ensures r.Some? ==>
      && r.value < |s| && IsQuerySeparator(s[r.value])
      && forall j :: r.value < j < |s| ==> !IsQuerySeparator(s[j])
    ensures r.None? ==> forall j :: 0 <= j < |s| ==> !IsQuerySeparator(s[j])
  {
    if s == [] then None
    else if IsQuerySeparator(s[|s| - 1]) then Some(|s| - 1)
    else LastSeparator(s[..|s| - 1])
  }

  /** A URL split at its last query parameter. */
  datatype LastParameter = LastParameter(base: string, separator: char, name: seq<Byte>, value: seq<Byte>)

  /** Splits a URL at its last '?' or '&' and decodes the `name=value`
      after it. */
  function SplitLastParameter(s: string): Option<LastParameter> {
    match LastSeparator(s)
    case None => None
    case Some(k) =>
      var pair := s[k + 1..];
      match IndexOf(pair, '=')
      case None => None
      case Some(e) =>
        match (PercentDecode(pair[..e]), PercentDecode(pair[e + 1..]))
        case (Some(n), Some(v)) => Some(LastParameter(s[..k], s[k], n, v))
        case _ => None
  }

  lemma EscapedHasNoDelimiter(s: string)
    ensures forall j :: 0 <= j < |EscapeDataString(s)| ==>
      !IsQuerySeparator(EscapeDataString(s)[j]) && EscapeDataString(s)[j] != '='
  {
  }

  lemma {:induction false} LastSeparatorAt(u: string, sep: char, t: string)
    requires IsQuerySeparator(sep)
    requires forall j :: 0 <= j < |t| ==> !IsQuerySeparator(t[j])
    ensures LastSeparator(u + [sep] + t) == Some(|u|)
  {
    var s := u + [sep] + t;
    if t == [] {
      assert s[|s| - 1] == sep;
    } else {
      assert s[|s| - 1] == t[|t| - 1];
      assert s[..|s| - 1] == u + [sep] + t[..|t| - 1];
      LastSeparatorAt(u, sep, t[..|t| - 1]);
    }
  }

  /** The escaped `name=value` pair holds no separator, and its '=' is the
      one between name and value. */
  lemma EscapedPair(name: string, value: string)
    ensures var t := EscapeDataString(name) + "=" + EscapeDataString(value);
      && (forall j :: 0 <= j < |t| ==> !IsQuerySeparator(t[j]))
      && IndexOf(t, '=') == Some(|EscapeDataString(name)|)
  {
    var en := EscapeDataString(name);
    var ev := EscapeDataString(value);
    var t := en + "=" + ev;
    EscapedHasNoDelimiter(name);
    EscapedHasNoDelimiter(value);
    forall j | 0 <= j < |t| ensures !IsQuerySeparator(t[j]) {
      if j < |en| {
        assert t[j] == en[j];
      } else if j > |en| {
        assert t[j] == ev[j - |en| - 1];
      }
    }
    assert '=' !in en;
    assert t == en + ['='] + ev;
    IndexOfSplit(en, '=', ev);
  }

  /** Splitting `base + [sep] + en + "=" + ev` at its last parameter, when
      only `sep` separates and the first '=' ends `en`. */
  lemma SplitParameter(base: string, sep: char, en: string, ev: string, name: seq<Byte>, value: seq<Byte>)
    requires IsQuerySeparator(sep)
    requires forall j :: 0 <= j < |en + "=" + ev| ==> !IsQuerySeparator((en + "=" + ev)[j])
    requires IndexOf(en + "=" + ev, '=') == Some(|en|)
    requires PercentDecode(en) == Some(name) && PercentDecode(ev) == Some(value)
    ensures SplitLastParameter(base + [sep] + (en + "=" + ev)) == Some(LastParameter(base, sep, name, value))
  {
    var t := en + "=" + ev;
    var r := base + [sep] + t;
    LastSeparatorAt(base, sep, t);
    assert r[..|base|] == base && r[|base|] == sep && r[|base| + 1..] == t;
    assert t[..|en|] == en && t[|en| + 1..] == ev;
  }

  /** Splitting `base + [sep] + escaped name + "=" + escaped value` at its
      last parameter gives back all four parts. */
  lemma SplitEscapedParameter(base: string, sep: char, name: string, value: string)
    requires IsQuerySeparator(sep)
    ensures SplitLastParameter(base + [sep] + (EscapeDataString(name) + "=" + EscapeDataString(value)))
      == Some(LastParameter(base, sep, Utf8String(name), Utf8String(value)))
  {
    EscapedPair(name, value);
    EscapeRoundTrip(name);
    EscapeRoundTrip(value);
    SplitParameter(base, sep, EscapeDataString(name), EscapeDataString(value), Utf8String(name), Utf8String(value));
  }

  /** The parameter `AppendQuery` adds is the last one of the result, and
      splitting it off gives back the original URL, the separator and the
      UTF-8 bytes of the name and of the value. */
  lemma AppendQueryReadsBack(url: string, name: string, value: Option<string>)
    requires !IsNullOrBlank(value)
    ensures SplitLastParameter(AppendQuery(url, name, value))
      == Some(LastParameter(url, if '?' in url then '&' else '?', Utf8String(name), Utf8String(value.value)))
  {
    var sep := if '?' in url then '&' else '?';
    assert AppendQuery(url, name, value) == url + [sep] + (EscapeDataString(name) + "=" + EscapeDataString(value.value));
    SplitEscapedParameter(url, sep, name, value.value);
  }

  // --------------------------------------------------------- request building

  /** `BuildRequest(method, url, bootKey, workerId, idx)`, the clock reading
      `now` standing for `DateTime.UtcNow`. Body-carrying methods keep the
      URL and send a payload naming this worker and index, with the boot key
      passed through untouched (null included); the other methods send no
      body and carry the boot key in the query string instead. */
  function BuildRequest(httpMethod: HttpMethod, url: string, bootKey: Option<string>, workerId: int, idx: int, now: int): (r: Request)
    ensures r.content.Json? <==> CarriesBody(httpMethod)
    ensures CarriesBody(httpMethod) ==>
      && r.url == url
      && r.content.payload.inputs == Some(Inputs(workerId, idx))
      && r.content.payload.bootKey == bootKey
      && r.content.payload.timestampUtc == now
      && r.content.payload.measurementId == Some(MeasurementId(workerId, idx))
    ensures !CarriesBody(httpMethod) ==> r.url == AppendQuery(url, "bootKey", bootKey)
  {
    if CarriesBody(httpMethod) then
      var payload := RequestPayload(
        measurementId := Some(MeasurementId(workerId, idx)),
        timestampUtc := now,
        inputs := Some(Inputs(workerId, idx)),
        bootKey := bootKey);
      Request(url, Json(payload))
    else
      Request(AppendQuery(url, "bootKey", bootKey), NoContent)
  }

  /** What a request's receiver can rely on: a body-carrying request goes
      to `url` itself and its measurement id reads back as the worker id and
      index; any other request goes to `url` extended by nothing but the
      boot key parameter, which reads back as the key's UTF-8 bytes, and to
      `url` itself exactly when the key is null or blank. */
  lemma BuildRequestReadsBack(httpMethod: HttpMethod, url: string, bootKey: Option<string>, workerId: int, idx: int, now: int)
    requires workerId >= 0
    ensures var r := BuildRequest(httpMethod, url, bootKey, workerId, idx, now);
      && (CarriesBody(httpMethod) ==>
            ParseMeasurementId(r.content.payload.measurementId.value) == Some((workerId, idx)))
      && (!CarriesBody(httpMethod) ==>
            && |url| <= |r.url| && r.url[..|url|] == url
            && (r.url == url <==> IsNullOrBlank(bootKey))
            && (!IsNullOrBlank(bootKey) ==>
                  SplitLastParameter(r.url)
                  == Some(LastParameter(url, if '?' in url then '&' else '?', Utf8String("bootKey"), Utf8String(bootKey.value)))))
  {
    if CarriesBody(httpMethod) {
      MeasurementIdRoundTrip(workerId, idx);
    } else if !IsNullOrBlank(bootKey) {
      AppendQueryReadsBack(url, "bootKey", bootKey);
    }
  }

  /** A name and a non-blank value made of unreserved characters only are
      appended verbatim: with a `bootKey` of "abc123", "http://h/x" becomes
      "http://h/x?bootKey=abc123". */
  lemma AppendUnreservedVerbatim(url: string, name: string, value: string)
    requires forall i :: 0 <= i < |name| ==> IsUnreserved(name[i])
    requires forall i :: 0 <= i < |value| ==> IsUnreserved(value[i])
    requires !IsBlank(value)
    ensures AppendQuery(url, name, Some(value)) == url + [if '?' in url then '&' else '?'] + name + "=" + value
  {
    EscapeIdentity(name);
    EscapeIdentity(value);
  }
}
