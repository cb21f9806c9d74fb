/**
 * The DoH forwarder, `sendToDoH` in doh-proxy.go: the query is encoded with
 * unpadded base64url, put in the `dns` parameter of a URL on the fixed
 * endpoint (section 4.1 of RFC 8484), and sent as a GET request that asks for
 * the binary `application/dns-message` media type (section 6 of RFC 8484).
 * The HTTPS exchange itself is an abstract transport: a function from the
 * request to its outcome.
 */
module DohRequest {
  import opened Wrappers
  import opened Base64Url

  /** The configured DoH endpoint (`dohEndpoint`). */
  const DohEndpoint: string := "https://cloudflare-dns.com/dns-query"
  /** What the `%s?dns=%s` format puts between the endpoint and the encoding. */
  const DnsParamPrefix: string := "?dns="
  const MethodGet: string := "GET"
  const AcceptHeader: string := "Accept"
  const DnsMessageType: string := "application/dns-message"

  /** An HTTP header as Go's `http.Header`: each key has a list of values. */
  type Header = map<string, seq<string>>

  /** The part of Go's `*http.Request` that this code builds: the method (`verb`), the URL and the header; the body is always nil. */
  datatype Request = Request(verb: string, url: string, header: Header)

  /**
   * How a DoH server reads the query back from a GET URL on this endpoint:
   * the `dns` parameter decoded as unpadded base64url.
   */
  function DnsParameter(url: string): Option<seq<byte>> {
    var prefix := DohEndpoint + DnsParamPrefix;
    if |url| >= |prefix| && url[..|prefix|] == prefix then Decode(url[|prefix|..]) else None
  }

  /**
   * `fmt.Sprintf("%s?dns=%s", dohEndpoint, encoded)`: the endpoint, then
   * `?dns=`, then the encoded query, from which a server gets the query back.
   */
  function QueryUrl(query: seq<byte>): (url: string)
    ensures |url| == |DohEndpoint| + |DnsParamPrefix| + EncodedLength(|query|)
    ensures url[..|DohEndpoint|] == DohEndpoint
    ensures url[|DohEndpoint|..|DohEndpoint| + |DnsParamPrefix|] == DnsParamPrefix
    ensures DnsParameter(url) == Some(query)
  {
    var url := DohEndpoint + DnsParamPrefix + Encode(query);
    assert url[..|DohEndpoint + DnsParamPrefix|] == DohEndpoint + DnsParamPrefix;
    assert url[|DohEndpoint + DnsParamPrefix|..] == Encode(query);
    DecodeEncode(query);
    url
  }

  /** `http.NewRequest("GET", url, nil)`: a GET request with no header set yet. */
  function NewGetRequest(url: string): Request {
    Request(MethodGet, url, map[])
  }

  /** `Header.Set`: the key's list of values becomes the one value given. */
  function SetHeader(req: Request, key: string, value: string): Request {
    req.(header := req.header[key := [value]])
  }

  /** The request `sendToDoH` builds for one query. */
  function BuildRequest(query: seq<byte>): (req: Request)
    ensures req.verb == MethodGet
    ensures req.header == map[AcceptHeader := [DnsMessageType]]
    ensures DnsParameter(req.url) == Some(query)
  {
    SetHeader(NewGetRequest(QueryUrl(query)), AcceptHeader, DnsMessageType)
  }

  /** A DoH GET request for the query on this endpoint, as RFC 8484 describes it. */
  predicate IsDohGet(req: Request, query: seq<byte>) {
    && req.verb == MethodGet
    && req.header == map[AcceptHeader := [DnsMessageType]]
    && DnsParameter(req.url) == Some(query)
  }

  /**
   * The request BuildRequest makes is the only DoH GET request for the query:
   * a GET with that Accept header whose `dns` parameter decodes to the query
   * has exactly the URL BuildRequest gives it.
   */
  lemma DohGetUnique(req: Request, query: seq<byte>)
    ensures IsDohGet(req, query) <==> req == BuildRequest(query)
  {
    if IsDohGet(req, query) {
      var prefix := DohEndpoint + DnsParamPrefix;
      var rest := req.url[|prefix|..];
      EncodeDecode(rest);
      assert rest == Encode(query);
      assert req.url == prefix + rest;
    }
  }

  /** Distinct queries give distinct URLs, so no two queries share a request. */
  lemma QueryUrlInjective(q1: seq<byte>, q2: seq<byte>)
    requires QueryUrl(q1) == QueryUrl(q2)
    ensures q1 == q2
  {
    var prefix := DohEndpoint + DnsParamPrefix;
    assert QueryUrl(q1)[|prefix|..] == Encode(q1);
    assert QueryUrl(q2)[|prefix|..] == Encode(q2);
    EncodeInjective(q1, q2);
  }

  /** An empty datagram still gives a well-formed request, with an empty `dns` value. */
  lemma EmptyQueryUrl()
    ensures QueryUrl([]) == DohEndpoint + DnsParamPrefix
    ensures QueryUrl([]) == "https://cloudflare-dns.com/dns-query?dns="
  {
  }

  /**
   * The URL has one query component holding one parameter: its only `?`
   * ends the endpoint, its only `=` follows `dns`, and it has no `&` or `#`.
   * So a query-string parser sees `dns` with the encoding as its value.
   */
  lemma QueryUrlShape(query: seq<byte>)
    ensures var url := QueryUrl(query);
      forall i :: 0 <= i < |url| ==>
        && (url[i] == '?' <==> i == |DohEndpoint|)
        && (url[i] == '=' <==> i == |DohEndpoint| + 4)
        && url[i] != '&' && url[i] != '#'
  {
    var url := QueryUrl(query);
    forall i | 0 <= i < |url|
      ensures && (url[i] == '?' <==> i == |DohEndpoint|)
              && (url[i] == '=' <==> i == |DohEndpoint| + 4)
              && url[i] != '&' && url[i] != '#'
    {
      UrlCharAt(Encode(query), i);
    }
  }

  /** One character of the endpoint, the `?dns=` prefix and an encoding after them. */
  lemma UrlCharAt(e: string, i: nat)
    requires InAlphabet(e) && i < |DohEndpoint| + |DnsParamPrefix| + |e|
    ensures var c := (DohEndpoint + DnsParamPrefix + e)[i];
      && (c == '?' <==> i == |DohEndpoint|)
      && (c == '=' <==> i == |DohEndpoint| + 4)
      && c != '&' && c != '#'
  {
    var n := |DohEndpoint| + |DnsParamPrefix|;
    if i < |DohEndpoint| {
      EndpointChar(i);
    } else if i >= n {
      assert IsUrlSafe(e[i - n]);
    }
  }

  /** No character of the endpoint is `?`, `=`, `&` or `#`. */
  lemma EndpointChar(i: nat)
    requires i < |DohEndpoint|
    ensures DohEndpoint[i] != '?' && DohEndpoint[i] != '=' && DohEndpoint[i] != '&' && DohEndpoint[i] != '#'
  {
  }

  /** What the HTTPS exchange gives: a status and a body, or a transport error. */
  datatype Exchange = Answered(status: int, body: seq<byte>) | Failed

  /** What `sendToDoH` returns: the answer bytes, or an error. */
  datatype DohResult = DohAnswer(answer: seq<byte>) | DohError

  /**
   * `sendToDoH`: the transport is asked with the DoH GET request for the query;
   * a transport error is an error, and otherwise the response body is the
   * answer verbatim, whatever its status.
   */
  function SendToDoH(query: seq<byte>, transport: Request -> Exchange): (r: DohResult)
    ensures exists req ::
      && IsDohGet(req, query)
      && (r.DohError? <==> transport(req).Failed?)
      && (r.DohAnswer? ==> r.answer == transport(req).body)
  {
    var req := BuildRequest(query);
    assert IsDohGet(req, query);
    match transport(req)
    case Failed => DohError
    case Answered(_, body) => DohAnswer(body)
  }
}
