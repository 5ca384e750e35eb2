/** `updatePlayer`: one PUT for one player, and how the batch loop treats the
    response that comes back. The HTTP call itself is not modelled; it is a
    function from the request to the response it produced. */
module PlayerUpdater {
  import opened Wrappers
  import opened OrderedDict
  import opened Payload

  /** Path segment between the server URL and the player's address. */
  const ProfilesPath: string := "/profiles/clientId:"

  /** The Content-Type value the request declares, spelled as the source spells it. */
  const RequestContentType: string := "applicatino/json"

  /** The response Content-Type that makes the loop read `error` and `message`. */
  const JsonContentType: string := "application/json"

  const ClientIdHeader: string := "x-client-id"
  const TokenHeader: string := "x-authentication-token"

  datatype Request = Request(url: string, headers: Dict, body: Body)

  /** The profile URL of a player: the server URL, the profiles path and the
      address joined as they are, with no slash normalisation and no escaping
      of the address. */
  function ProfileUrl(serverUrl: string, macAddress: string): (url: string)
    ensures |url| == |serverUrl| + |ProfilesPath| + |macAddress|
    ensures url[..|serverUrl|] == serverUrl
    ensures url[|serverUrl|..|serverUrl| + |ProfilesPath|] == ProfilesPath
    ensures url[|serverUrl| + |ProfilesPath|..] == macAddress
  {
    serverUrl + ProfilesPath + macAddress
  }

  /** The player address a profile URL under `serverUrl` names, if it is one. */
  function ClientIdOf(serverUrl: string, url: string): Option<string>
  {
    var n := |serverUrl| + |ProfilesPath|;
    if n <= |url| && url[..|serverUrl|] == serverUrl && url[|serverUrl|..n] == ProfilesPath
    then Some(url[n..])
    else None
  }

  /** The URL names its player exactly: the address can be read back out, and
      only the URL built from an address reads back as that address. */
  lemma ProfileUrlRoundTrip(serverUrl: string, macAddress: string, url: string)
    ensures ClientIdOf(serverUrl, ProfileUrl(serverUrl, macAddress)) == Some(macAddress)
    ensures ClientIdOf(serverUrl, url) == Some(macAddress) ==> url == ProfileUrl(serverUrl, macAddress)
  {
    if ClientIdOf(serverUrl, url) == Some(macAddress) {
      var n := |serverUrl| + |ProfilesPath|;
      assert url == url[..|serverUrl|] + url[|serverUrl|..n] + url[n..];
    }
  }

  /** Two players never share a URL under the same server. */
  lemma ProfileUrlInjective(serverUrl: string, mac1: string, mac2: string)
    requires ProfileUrl(serverUrl, mac1) == ProfileUrl(serverUrl, mac2)
    ensures mac1 == mac2
  {
    ProfileUrlRoundTrip(serverUrl, mac1, "");
    ProfileUrlRoundTrip(serverUrl, mac2, "");
  }

  /** A server URL ending in '/' yields "//" before "profiles". */
  lemma TrailingSlashDoubled(serverUrl: string, macAddress: string)
    requires |serverUrl| > 0 && serverUrl[|serverUrl| - 1] == '/'
    ensures ProfileUrl(serverUrl, macAddress)[|serverUrl| - 1..|serverUrl| + 1] == "//"
  {
    var url := ProfileUrl(serverUrl, macAddress);
    assert url[|serverUrl| - 1] == serverUrl[|serverUrl| - 1];
    assert url[|serverUrl|] == ProfilesPath[0];
  }

  /** The request headers: exactly the declared Content-Type, the client id,
      which is the player's address, and the token, which is the run's token. */
  function RequestHeaders(macAddress: string, token: string): (h: Dict)
    ensures Keys(h) == ["Content-Type", ClientIdHeader, TokenHeader]
    ensures UniqueKeys(h)
    ensures Get(h, "Content-Type") == Some(RequestContentType)
    ensures Get(h, ClientIdHeader) == Some(macAddress)
    ensures Get(h, TokenHeader) == Some(token)
  {
    var h := [("Content-Type", RequestContentType), (ClientIdHeader, macAddress), (TokenHeader, token)];
    assert h[1..] == [(ClientIdHeader, macAddress), (TokenHeader, token)];
    assert h[1..][1..] == [(TokenHeader, token)];
    assert h[0].0 != ClientIdHeader && h[0].0 != TokenHeader && ClientIdHeader != TokenHeader;
    assert Get(h[1..][1..], TokenHeader) == Some(token);
    assert Get(h[1..], TokenHeader) == Some(token);
    assert Get(h[1..], ClientIdHeader) == Some(macAddress);
    h
  }

  /** The request `updatePlayer(macAddress, payload, token, serverUrl)` sends. */
  function MakeRequest(macAddress: string, payload: Body, token: string, serverUrl: string): (r: Request)
    ensures ClientIdOf(serverUrl, r.url) == Some(macAddress)
    ensures Get(r.headers, ClientIdHeader) == Some(macAddress)
    ensures Get(r.headers, TokenHeader) == Some(token)
    ensures r.headers == RequestHeaders(macAddress, token)
    ensures r.body == payload
  {
    ProfileUrlRoundTrip(serverUrl, macAddress, "");
    Request(ProfileUrl(serverUrl, macAddress), RequestHeaders(macAddress, token), payload)
  }

  // ---------------------------------------------------------------------------
  // Responses

  /** What `response.json()` would see: not JSON at all, an object, or any
      other JSON value (a list, string, number, boolean or `null`). */
  datatype JsonBody = Unparseable | JsonObject(fields: map<string, string>) | JsonOther

  /** What `updatePlayer` returns: `None` after a `RequestException`, or a response. */
  datatype Outcome =
    | NoResponse
    | Status(code: int, contentType: Option<string>, json: JsonBody)

  /** An exception raised while logging a response's error details. */
  datatype Crash =
    | JsonDecodeError   // the body is not JSON
    | TypeError         // the body is JSON but not an object, so it cannot be indexed by a key
    | KeyError(key: string)

  /** The branch the batch loop takes for one outcome. */
  datatype Handling =
    | Skipped                                            // no response: log and continue
    | StatusLogged(code: int)                            // status logged at info only
    | DetailsLogged(code: int, error: string, message: string)  // plus `error` and `message`
    | Crashed(code: int, crash: Crash)                   // reading the details raised

  /** True of the branches that read the response's JSON body. */
  predicate ReadsErrorBody(h: Handling)
  {
    h.DetailsLogged? || h.Crashed?
  }

  /** The body of the loop after `updatePlayer` returned `o`: a missing
      response is only skipped; the error-log path is taken exactly for a
      non-200 status with a JSON Content-Type, so a 200 never takes it; on that
      path the details are logged when the body is an object carrying both
      `error` and `message`, and reading them raises otherwise. */
  function Handle(o: Outcome): (h: Handling)
    ensures h.Skipped? <==> o.NoResponse?
    ensures o.Status? ==> h.code == o.code
    ensures ReadsErrorBody(h) <==> o.Status? && o.code != 200 && o.contentType == Some(JsonContentType)
    ensures h.DetailsLogged? <==>
      ReadsErrorBody(h) && o.json.JsonObject? && "error" in o.json.fields && "message" in o.json.fields
    ensures h.DetailsLogged? ==> h.error == o.json.fields["error"] && h.message == o.json.fields["message"]
    ensures h.Crashed? ==> (h.crash == JsonDecodeError <==> o.json.Unparseable?)
    ensures h.Crashed? ==> (h.crash == TypeError <==> o.json.JsonOther?)
    ensures h.Crashed? && h.crash.KeyError? ==>
      o.json.JsonObject? && h.crash.key !in o.json.fields &&
      h.crash.key == (if "error" in o.json.fields then "message" else "error")
  {
    match o
    case NoResponse => Skipped
    case Status(code, contentType, json) =>
      if code == 200 || contentType != Some(JsonContentType) then StatusLogged(code)
      else match json
        case Unparseable => Crashed(code, JsonDecodeError)
        case JsonOther => Crashed(code, TypeError)
        case JsonObject(fields) =>
          if "error" !in fields then Crashed(code, KeyError("error"))
          else if "message" !in fields then Crashed(code, KeyError("message"))
          else DetailsLogged(code, fields["error"], fields["message"])
  }
}
