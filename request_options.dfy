/**
 * How `makeRequest` turns the configuration and the resolved target URL
 * into the options of the outbound request, and which payload it writes.
 * The URL is given already resolved; the network call itself is not modelled.
 */
module RequestOptions {

  import opened Wrappers
  import opened ArgParser
  import Utf8
  import opened JsStrings

  /** The fields of the resolved target URL that the request uses. */
  datatype Url = Url(protocol: string, hostname: string, port: string, pathname: string, search: string)

  /** The client module the request goes through. */
  datatype Client = Http | Https

  /** A JavaScript option value that is either a string or a number. */
  datatype StrOrNum = Str(s: string) | Num(n: int)

  /** The options object handed to the client's `request`. */
  datatype Options = Options(
    hostname: string,
    port: StrOrNum,
    path: string,
    httpMethod: Option<string>,
    headers: map<string, StrOrNum>,
    timeout: Option<int>)

  /** `https` exactly for the `https:` scheme, `http` for every other one. */
  function ClientFor(url: Url): (c: Client)
    ensures c == Https <==> url.protocol == "https:"
  {
    if url.protocol == "https:" then Https else Http
  }

  /** The well-known port of each client. */
  function DefaultPort(client: Client): nat {
    match client
    case Https => 443
    case Http => 80
  }

  /** `targetUrl.port || (isHttps ? 443 : 80)`. */
  function PortFor(url: Url): (p: StrOrNum)
    ensures url.port != "" ==> p == Str(url.port)
    ensures url.port == "" ==> p == Num(DefaultPort(ClientFor(url)))
  {
    if url.port != "" then Str(url.port) else Num(if url.protocol == "https:" then 443 else 80)
  }

  /** The JSON content type, overlaid by the configured headers (`{'Content-Type': ..., ...headers}`). */
  function MergeHeaders(configured: map<string, string>): (r: map<string, StrOrNum>)
    ensures r.Keys == configured.Keys + {"Content-Type"}
    ensures forall k :: k in configured ==> r[k] == Str(configured[k])
    ensures "Content-Type" !in configured ==> r["Content-Type"] == Str("application/json")
  {
    map["Content-Type" := Str("application/json")] + map k | k in configured :: Str(configured[k])
  }

  /** JavaScript truthiness of the body: present and not the empty string. */
  predicate HasBody(body: Option<string>) {
    body.Some? && body.value != ""
  }

  /** The byte length of the body's UTF-8 encoding (`Buffer.from(body, 'utf8').length`). */
  function ByteLength(text: string): nat {
    |Utf8.Encode(text)|
  }

  /**
   * The request options: host, port and path from the URL, method and
   * timeout from the configuration, the merged headers, and a numeric
   * `Content-Length` added when the body is truthy.
   */
  function BuildOptions(config: Config, url: Url): (o: Options)
    ensures o.hostname == url.hostname && o.port == PortFor(url)
    ensures o.path == url.pathname + url.search
    ensures o.httpMethod == config.httpMethod && o.timeout == config.timeout
    ensures o.headers.Keys == config.headers.Keys + {"Content-Type"} + (if HasBody(config.body) then {"Content-Length"} else {})
    ensures forall k :: k in config.headers && !(k == "Content-Length" && HasBody(config.body)) ==> o.headers[k] == Str(config.headers[k])
    ensures "Content-Type" !in config.headers ==> o.headers["Content-Type"] == Str("application/json")
    ensures ("Content-Length" in o.headers && o.headers["Content-Length"].Num?) <==> HasBody(config.body)
    ensures HasBody(config.body) ==> o.headers["Content-Length"] == Num(ByteLength(config.body.value))
  {
    var headers := MergeHeaders(config.headers);
    var base := Options(url.hostname, PortFor(url), url.pathname + url.search, config.httpMethod, headers, config.timeout);
    if HasBody(config.body) then
      base.(headers := headers["Content-Length" := Num(ByteLength(config.body.value))])
    else
      base
  }

  /** The text `req.write` sends: the body when it is truthy, nothing otherwise. */
  function Payload(config: Config): (p: Option<string>)
    ensures p.Some? <==> HasBody(config.body)
    ensures p.Some? ==> p == config.body
  {
    if HasBody(config.body) then config.body else None
  }

  /**
   * A numeric `Content-Length` is declared exactly when a payload is written,
   * and it is the number of bytes of that payload, which decode back to it.
   */
  lemma ContentLengthMatchesPayload(config: Config, url: Url)
    ensures var o := BuildOptions(config, url);
            match Payload(config)
            case Some(p) =>
              && "Content-Length" in o.headers
              && o.headers["Content-Length"] == Num(|Utf8.Encode(p)|)
              && Utf8.Decode(Utf8.Encode(p)) == Some(p)
            case None =>
              !("Content-Length" in o.headers && o.headers["Content-Length"].Num?)
  {
    if Payload(config).Some? {
      Utf8.DecodeEncode(config.body.value);
    }
  }

  /** The byte length of two texts joined is the sum of their byte lengths. */
  lemma ByteLengthAppend(a: string, b: string)
    ensures ByteLength(a + b) == ByteLength(a) + ByteLength(b)
  {
    Utf8.EncodeAppend(a, b);
  }

  /** An ASCII body declares its length in characters. */
  lemma AsciiBodyLength(config: Config, url: Url)
    requires HasBody(config.body)
    requires forall k :: 0 <= k < |config.body.value| ==> config.body.value[k] as int < 0x80
    ensures BuildOptions(config, url).headers["Content-Length"] == Num(|config.body.value|)
  {
    Utf8.EncodeAscii(config.body.value);
  }

  /**
   * A configuration with one header and no body (what `HeaderFlagParsed`
   * gives for a lone `--header`) sends that header and the JSON content
   * type, and nothing else.
   */
  lemma SingleHeaderOptions(key: string, val: string, url: Url)
    ensures var o := BuildOptions(Defaults().(headers := map[key := val]), url);
            && o.headers[key] == Str(val)
            && (key != "Content-Type" ==> o.headers["Content-Type"] == Str("application/json"))
            && o.headers.Keys == {key, "Content-Type"}
  {
  }

  /**
   * From the command line to the wire: `--header "name:text"` alone makes the
   * request carry the trimmed name with the trimmed text, beside the JSON
   * content type.
   */
  lemma HeaderFlagReachesRequest(name: string, text: string, url: Url, parseInt: string -> Option<int>)
    requires ':' !in name && ':' !in text && Trim(name) != "__proto__"
    ensures var parsed := Parsed(["--header", name + ":" + text], parseInt);
            && parsed.Success?
            && BuildOptions(parsed.value, url).headers.Keys == {Trim(name), "Content-Type"}
            && BuildOptions(parsed.value, url).headers[Trim(name)] == Str(Trim(text))
  {
    HeaderFlagParsed(name, text, parseInt);
    SingleHeaderOptions(Trim(name), Trim(text), url);
  }
}
