/** Client identification from the current HTTP request: which address a
    visitor counts as, and which user agent they report. A request is its
    header map plus the socket's remote address; "no current request" is
    `None`. */
module Requests {
  import opened Wrappers
  import opened Text
  import opened Split
  import opened Errors

  datatype HttpRequest = HttpRequest(headers: map<string, string>, remoteAddr: Option<string>)

  /** The proxy headers consulted, in order of precedence. */
  const ForwardingHeaders: seq<string> := ["X-Forwarded-For", "X-Real-IP", "CF-Connecting-IP"]

  const Unknown: string := "unknown"

  /** A header value made only of commas: splitting it on "," yields no
      element at all. */
  predicate OnlyCommas(v: string) {
    |v| > 0 && forall k :: 0 <= k < |v| ==> v[k] == ','
  }

  /** Whether header `name` is taken. As written, any non-blank value is;
      the corrected reading also passes over a value that names no address
      (only commas). */
  predicate Usable(headers: map<string, string>, name: string, skipEmptyLists: bool) {
    name in headers && HasText(headers[name]) && !(skipEmptyLists && OnlyCommas(headers[name]))
  }

  /** The position of the first usable header in `names`. */
  function FirstUsable(headers: map<string, string>, names: seq<string>, skipEmptyLists: bool): (r: Option<nat>)
    ensures r.Some? ==> r.value < |names| && Usable(headers, names[r.value], skipEmptyLists)
    ensures r.Some? ==> forall j :: 0 <= j < r.value ==> !Usable(headers, names[j], skipEmptyLists)
    ensures r.None? <==> forall j :: 0 <= j < |names| ==> !Usable(headers, names[j], skipEmptyLists)
    decreases |names|
  {
    if names == [] then None
    else if Usable(headers, names[0], skipEmptyLists) then Some(0)
    else match FirstUsable(headers, names[1..], skipEmptyLists)
      case None => None
      case Some(i) => Some(i + 1)
  }

  /** `getClientIp` as written: the first element of the winning header's
      comma-split, trimmed; when the split is empty, indexing element 0
      throws. */
  function ClientIpAsWritten(request: Option<HttpRequest>): (r: Outcome<string>)
    ensures request.None? ==> r == Success(Unknown)
    ensures request.Some? && FirstUsable(request.value.headers, ForwardingHeaders, false).None? ==>
      r == Success(request.value.remoteAddr.GetOr(Unknown))
    ensures request.Some? && FirstUsable(request.value.headers, ForwardingHeaders, false).Some? ==>
      var h := request.value.headers[ForwardingHeaders[FirstUsable(request.value.headers, ForwardingHeaders, false).value]];
      && (r.Failure? <==> OnlyCommas(h))
      && (r.Success? ==> r.value == Trim(Before(h, ',')))
  {
    if request.None? then Success(Unknown)
    else
      var headers := request.value.headers;
      match FirstUsable(headers, ForwardingHeaders, false)
      case None => Success(request.value.remoteAddr.GetOr(Unknown))
      case Some(i) =>
        var parts := SplitOn(headers[ForwardingHeaders[i]], ',');
        SplitOnShape(headers[ForwardingHeaders[i]], ',');
        if |parts| == 0 then Failure(Runtime(IndexOutOfBounds, Some("Index 0 out of bounds for length 0")))
        else Success(Trim(parts[0]))
  }

  /** A request whose only forwarding header is "," makes the as-written
      lookup fail instead of naming a client. */
  lemma ClientIpAsWrittenFailsOnCommas()
    ensures ClientIpAsWritten(Some(HttpRequest(map["X-Forwarded-For" := ","], Some("10.0.0.1")))).Failure?
  {
    var headers := map["X-Forwarded-For" := ","];
    assert !IsWhitespace(headers["X-Forwarded-For"][0]);
    assert Usable(headers, ForwardingHeaders[0], false);
    assert OnlyCommas(headers["X-Forwarded-For"]);
  }

  /** The corrected `getClientIp`: a header naming no address is passed
      over like a blank one, so the lookup always yields an address. */
  function ClientIp(request: Option<HttpRequest>): (r: string)
    ensures request.None? ==> r == Unknown
    ensures request.Some? && FirstUsable(request.value.headers, ForwardingHeaders, true).None? ==>
      r == request.value.remoteAddr.GetOr(Unknown)
    ensures request.Some? && FirstUsable(request.value.headers, ForwardingHeaders, true).Some? ==>
      r == Trim(Before(request.value.headers[ForwardingHeaders[FirstUsable(request.value.headers, ForwardingHeaders, true).value]], ','))
  {
    if request.None? then Unknown
    else
      var headers := request.value.headers;
      match FirstUsable(headers, ForwardingHeaders, true)
      case None => request.value.remoteAddr.GetOr(Unknown)
      case Some(i) =>
        var parts := SplitOn(headers[ForwardingHeaders[i]], ',');
        SplitOnShape(headers[ForwardingHeaders[i]], ',');
        Trim(parts[0])
  }

  /** When the header the code as written picks does name an address, the
      corrected reading picks the same header. */
  lemma FirstUsableAgrees(headers: map<string, string>, names: seq<string>)
    requires FirstUsable(headers, names, false).Some?
    requires !OnlyCommas(headers[names[FirstUsable(headers, names, false).value]])
    ensures FirstUsable(headers, names, true) == FirstUsable(headers, names, false)
  {
    var a := FirstUsable(headers, names, false).value;
    assert Usable(headers, names[a], true);
    var b := FirstUsable(headers, names, true);
    assert b.Some?;
    assert Usable(headers, names[b.value], false);
    assert b.value <= a;
    assert a <= b.value;
  }

  /** Wherever the code as written names a client, the corrected lookup
      names the same one. */
  lemma ClientIpAgrees(request: Option<HttpRequest>)
    ensures ClientIpAsWritten(request).Success? ==> ClientIpAsWritten(request).value == ClientIp(request)
  {
    if request.Some? && FirstUsable(request.value.headers, ForwardingHeaders, false).Some? && ClientIpAsWritten(request).Success? {
      FirstUsableAgrees(request.value.headers, ForwardingHeaders);
    } else if request.Some? && FirstUsable(request.value.headers, ForwardingHeaders, false).None? {
      var headers := request.value.headers;
      assert forall j :: 0 <= j < |ForwardingHeaders| ==> !Usable(headers, ForwardingHeaders[j], true);
    }
  }

  /** `getUserAgent`: the User-Agent header, or "unknown" when there is no
      request or no such header. */
  function UserAgent(request: Option<HttpRequest>): (r: string)
    ensures request.None? || "User-Agent" !in request.value.headers ==> r == Unknown
    ensures request.Some? && "User-Agent" in request.value.headers ==> r == request.value.headers["User-Agent"]
  {
    if request.None? then Unknown
    else if "User-Agent" in request.value.headers then request.value.headers["User-Agent"]
    else Unknown
  }
}
