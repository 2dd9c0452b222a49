/**
 * The CDC server: reading and checking signed messages, the keyed
 * signature, sending signed messages back through the browser, dispatching
 * the three operations, and the identity list kept in the `_saml_idp`
 * cookie. Ambient request parameters, the cookie and the clock are explicit
 * parameters; what the server sends out is returned as a value.
 */
module Cdc {
  import opened Wrappers
  import opened Text
  import opened Values
  import opened Errors
  import Base64
  import CookieList
  import IdentityList

  const RequestParameter: Bytes := "CDCRequest"
  const ResponseParameter: Bytes := "CDCResponse"
  const SignatureParameter: Bytes := "Signature"
  const CookieName: Bytes := "_saml_idp"

  /** The key shipped in the example configuration; a server refuses to use it. */
  const ExampleSharedKey: Bytes := "ExampleSharedKey"

  /** Allowed clock difference, in seconds, between sender and receiver. */
  const Window := 60

  /** URLs at least this long are delivered by POST instead of a redirect. */
  const MaxRedirectLength := 2048

  /**
   * What `json_decode($text, true)` gives, as far as the server tells the
   * results apart: an object decoded to an array, the literal `false`, or
   * anything else (a failure, which PHP reports as null, or another scalar or list).
   */
  datatype Json =
    | Object(fields: Message)
    | JsonFalse
    | OtherJson

  /** Functions the server calls whose definitions are not part of this model. */
  datatype Host = Host(
    sha1: Bytes -> Bytes,                                  // hexadecimal SHA-1 digest
    jsonEncode: Message -> Bytes,                          // json_encode
    jsonDecode: Bytes -> Json,                             // json_decode to an array
    addUrlParameters: (Bytes, map<Bytes, Bytes>) -> Bytes, // the URL with the fields added as query parameters
    isValidUri: Bytes -> bool)                             // the URI validity assertion
  {
    /** JSON encoding loses nothing and never yields empty text. */
    ghost predicate Valid()
    {
      && (forall m :: jsonDecode(jsonEncode(m)) == Object(m))
      && (forall m :: |jsonEncode(m)| > 0)
    }
  }

  /** A domain's entry in the module configuration. */
  datatype DomainConfig = DomainConfig(server: Bytes, key: Bytes, cookieLifetime: Option<int>)

  datatype Delivery =
    | Redirect(url: Bytes)
    | Post(url: Bytes, fields: map<Bytes, Bytes>)

  /** A signed message on its way to `to`: the message as stamped, the envelope fields and how they travel. */
  datatype Outgoing = Outgoing(to: Bytes, message: Message, fields: map<Bytes, Bytes>, delivery: Delivery)

  /** A cookie header; `value` None deletes the cookie. */
  datatype CookieWrite = CookieWrite(
    name: Bytes, value: Option<Bytes>, lifetime: Option<int>,
    path: Bytes, domain: Bytes, secure: bool, httpOnly: bool)

  /** What handling one request sends to the browser: possibly a cookie, then the signed response. */
  datatype Exchange = Exchange(cookie: Option<CookieWrite>, reply: Outgoing)

  /** The message carries a timestamp within Window seconds of `now`. */
  ghost predicate Fresh(m: Message, now: int)
  {
    IsSet(m, "timestamp") && now - Window <= ToInt(m["timestamp"]) <= now + Window
  }

  /**
   * Reads the message in `parameter`: base64, then JSON, then the checks for
   * a timestamp, its freshness and a domain, in that order. An absent
   * parameter is no message, not an error. Only the JSON text `false` fails
   * the decoding check; any other JSON that is not an object is reported as
   * lacking a timestamp.
   */
  function Get(parameter: Bytes, params: map<Bytes, Bytes>, now: int, host: Host): (r: Result<Option<Message>, Error>)
    ensures r == Ok(None) <==> parameter !in params
    ensures parameter in params && !Base64.IsValid(params[parameter]) ==> r == Err(BadBase64)
    ensures parameter in params && Base64.IsValid(params[parameter]) ==>
      var j := host.jsonDecode(Base64.Decode(params[parameter]).value);
      && (j.JsonFalse? ==> r == Err(BadJson))
      && (j.OtherJson? || (j.Object? && !IsSet(j.fields, "timestamp")) ==> r == Err(MissingTimestamp))
      && (j.Object? && IsSet(j.fields, "timestamp") ==>
            && (ToInt(j.fields["timestamp"]) < now - Window ==> r == Err(Expired))
            && (ToInt(j.fields["timestamp"]) > now + Window ==> r == Err(FromFuture))
            && (Fresh(j.fields, now) && !IsSet(j.fields, "domain") ==> r == Err(MissingDomain))
            && (Fresh(j.fields, now) && IsSet(j.fields, "domain") ==> r == Ok(Some(j.fields))))
    ensures r.Ok? && r.value.Some? ==> Fresh(r.value.value, now) && IsSet(r.value.value, "domain")
  {
    if parameter !in params then Ok(None)
    else
      var raw := params[parameter];
      if !Base64.IsValid(raw) then Err(BadBase64)
      else
        match host.jsonDecode(Base64.Decode(raw).value)
        case JsonFalse => Err(BadJson)
        case OtherJson => Err(MissingTimestamp)
        case Object(message) =>
          if !IsSet(message, "timestamp") then Err(MissingTimestamp)
          else
            var timestamp := ToInt(message["timestamp"]);
            if timestamp + Window < now then Err(Expired)
            else if timestamp - Window > now then Err(FromFuture)
            else if !IsSet(message, "domain") then Err(MissingDomain)
            else Ok(Some(message))
  }

  /** The identity list as a JSON list of strings. */
  function Entries(list: seq<Bytes>): Value
  {
    List(seq(|list|, i requires 0 <= i < |list| => Str(list[i])))
  }

  /** The running server for one domain; its fields are fixed when it is built. */
  datatype Server = Server(domain: Bytes, server: Bytes, key: Bytes, cookieLifetime: int, host: Host)
  {
    /** The signature on a base64 message text: SHA-1 of the key, the text and the key again. */
    function CalcSignature(raw: Bytes): Bytes
    {
      host.sha1(key + raw + key)
    }

    /**
     * Checks the signature on the message in `parameter`: it must be present
     * and equal, byte for byte, to the signature computed with our key.
     */
    function Validate(parameter: Bytes, params: map<Bytes, Bytes>): (r: Result<(), Error>)
      ensures r.Ok? <==>
        && parameter in params && SignatureParameter in params
        && params[SignatureParameter] == host.sha1(key + params[parameter] + key)
      ensures parameter !in params ==> r == Err(MissingParameter(parameter))
      ensures parameter in params && SignatureParameter !in params ==> r == Err(MissingSignature)
      ensures r.Err? && parameter in params && SignatureParameter in params ==> r == Err(InvalidSignature)
    {
      if parameter !in params then Err(MissingParameter(parameter))
      else if SignatureParameter !in params then Err(MissingSignature)
      else if params[SignatureParameter] != CalcSignature(params[parameter]) then Err(InvalidSignature)
      else Ok(())
    }

    /** The envelope for a stamped message: its JSON in base64 under `parameter`, and its signature. */
    function Seal(parameter: Bytes, stamped: Message): (fields: map<Bytes, Bytes>)
      ensures fields.Keys == {parameter, SignatureParameter}
      ensures parameter != SignatureParameter ==>
        && Base64.Decode(fields[parameter]) == Some(host.jsonEncode(stamped))
        && fields[SignatureParameter] == CalcSignature(fields[parameter])
    {
      var raw := Base64.Encode(host.jsonEncode(stamped));
      Base64.DecodeEncode(host.jsonEncode(stamped));
      map[parameter := raw, SignatureParameter := CalcSignature(raw)]
    }

    /**
     * Stamps `message` with the current time, seals it and delivers it to
     * `to`: by redirect when the URL is shorter than MaxRedirectLength bytes,
     * by POST otherwise.
     */
    function Send(to: Bytes, parameter: Bytes, message: Message, now: int): (out: Outgoing)
      ensures out.to == to && out.message == message["timestamp" := Int(now)]
      ensures out.fields == Seal(parameter, out.message)
      ensures var url := host.addUrlParameters(to, out.fields);
        out.delivery == if |url| < MaxRedirectLength then Redirect(url) else Post(to, out.fields)
    {
      var stamped := message["timestamp" := Int(now)];
      var fields := Seal(parameter, stamped);
      var url := host.addUrlParameters(to, fields);
      Outgoing(to, stamped, fields, if |url| < MaxRedirectLength then Redirect(url) else Post(to, fields))
    }

    /** Sends a request, which must name its return URL and op, to this domain's server. */
    function SendRequest(request: Message, now: int): (r: Result<Outgoing, Error>)
      ensures "return" !in request ==> r == Err(MissingParameter("return"))
      ensures "return" in request && "op" !in request ==> r == Err(MissingParameter("op"))
      ensures "return" in request && "op" in request ==> r.Ok?
      ensures r.Ok? ==> r.value.to == server && r.value.message == request["domain" := Str(domain)]["timestamp" := Int(now)]
    {
      if "return" !in request then Err(MissingParameter("return"))
      else if "op" !in request then Err(MissingParameter("op"))
      else Ok(Send(server, RequestParameter, request["domain" := Str(domain)], now))
    }

    /** The client's request: `op` and `return` merged into the extra parameters, then sent. */
    function ClientRequest(returnTo: Bytes, op: Bytes, params: Message, now: int): (out: Outgoing)
      ensures out.to == server
      ensures {"op", "return", "domain", "timestamp"} <= out.message.Keys
      ensures out.message["op"] == Str(op) && out.message["return"] == Str(returnTo)
      ensures out.message["domain"] == Str(domain) && out.message["timestamp"] == Int(now)
    {
      SendRequest(params["op" := Str(op)]["return" := Str(returnTo)], now).value
    }

    /**
     * Reads a response: none when absent; a response whose declared domain
     * is not ours is refused before its signature is looked at; otherwise it
     * must carry a valid signature.
     */
    function GetResponse(params: map<Bytes, Bytes>, now: int): (r: Result<Option<Message>, Error>)
      ensures r == Ok(None) <==> ResponseParameter !in params
      ensures Get(ResponseParameter, params, now, host).Err? ==> r == Get(ResponseParameter, params, now, host)
      ensures (var g := Get(ResponseParameter, params, now, host);
        g.Ok? && g.value.Some? && g.value.value["domain"] != Str(domain) ==> r == Err(WrongDomain))
      ensures (var g, v := Get(ResponseParameter, params, now, host), Validate(ResponseParameter, params);
        g.Ok? && g.value.Some? && g.value.value["domain"] == Str(domain) ==>
          && (v.Err? ==> r == Err(v.error))
          && (v.Ok? ==> r == g))
      ensures r.Ok? && r.value.Some? ==>
        && Get(ResponseParameter, params, now, host) == r
        && r.value.value["domain"] == Str(domain)
        && Validate(ResponseParameter, params).Ok?
    {
      match Get(ResponseParameter, params, now, host)
      case Err(e) => Err(e)
      case Ok(None) => Ok(None)
      case Ok(Some(response)) =>
        if response["domain"] != Str(domain) then Err(WrongDomain)
        else
          match Validate(ResponseParameter, params)
          case Err(e) => Err(e)
          case Ok(_) => Ok(Some(response))
    }

    /** A cookie header for our domain's `_saml_idp` cookie. */
    function CookieHeader(value: Option<Bytes>, lifetime: Option<int>): CookieWrite
    {
      CookieWrite(CookieName, value, lifetime, "/", "." + domain, true, false)
    }

    /** The delete operation: the cookie is removed for the whole domain. */
    function HandleDelete(): (w: CookieWrite)
      ensures w.name == CookieName && w.value.None? && w.domain == "." + domain
      ensures w.path == "/" && w.secure && !w.httpOnly
    {
      CookieHeader(None, None)
    }

    /** The read operation: status `ok` and the identity list from the cookie, or the cookie's error. */
    function HandleRead(cookie: Option<Bytes>): (r: Result<Message, Error>)
      ensures CookieList.Decode(cookie, host.isValidUri).Err? ==> r == Err(CookieList.Decode(cookie, host.isValidUri).error)
      ensures r.Ok? ==> r.value.Keys == {"status", "cdc"} && r.value["status"] == Str("ok")
      ensures r.Ok? ==> r.value["cdc"] == Entries(CookieList.Decode(cookie, host.isValidUri).value)
    {
      match CookieList.Decode(cookie, host.isValidUri)
      case Err(e) => Err(e)
      case Ok(list) =>
        Ok(map["status" := Str("ok"), "cdc" := Entries(list)])
    }

    /**
     * The cookie the append operation writes: the list read from the cookie
     * with the entity moved to the end, encoded with our cookie lifetime.
     */
    function AppendOutcome(request: Message, cookie: Option<Bytes>): (r: Result<CookieWrite, Error>)
      ensures !IsSet(request, "entityID") ==> r == Err(MissingEntityID)
      ensures IsSet(request, "entityID") && CookieList.Decode(cookie, host.isValidUri).Err? ==>
        r == Err(CookieList.Decode(cookie, host.isValidUri).error)
      ensures r.Ok? ==>
        && CookieList.Decode(cookie, host.isValidUri).Ok?
        && r.value == CookieHeader(Some(CookieList.Encode(IdentityList.MoveToEnd(
             CookieList.Decode(cookie, host.isValidUri).value, ToStr(request["entityID"])))), Some(cookieLifetime))
    {
      if !IsSet(request, "entityID") then Err(MissingEntityID)
      else
        match CookieList.Decode(cookie, host.isValidUri)
        case Err(e) => Err(e)
        case Ok(list) =>
          var entityID := ToStr(request["entityID"]);
          Ok(CookieHeader(Some(CookieList.Encode(IdentityList.MoveToEnd(list, entityID))), Some(cookieLifetime)))
    }

    /** The response to a request: the operation's result with op, id and domain added. */
    function Respond(request: Message, op: Bytes, result: Message): (m: Message)
      ensures m.Keys == result.Keys + {"op", "domain"} + (if IsSet(request, "id") then {"id"} else {})
      ensures m["op"] == Str(op) && m["domain"] == Str(domain)
      ensures IsSet(request, "id") ==> m["id"] == Str(ToStr(request["id"]))
      ensures forall k :: k in result && k != "op" && k != "id" && k != "domain" ==> m[k] == result[k]
    {
      var withOp := result["op" := Str(op)];
      var withId := if IsSet(request, "id") then withOp["id" := Str(ToStr(request["id"]))] else withOp;
      withId["domain" := Str(domain)]
    }

    /** The response `reply` answers `request`: sent to its return URL, echoing op and id, from our domain. */
    ghost predicate Answers(request: Message, reply: Outgoing, now: int)
      requires IsSet(request, "op") && IsSet(request, "return")
    {
      var m := reply.message;
      && reply.to == ToStr(request["return"])
      && {"status", "op", "domain", "timestamp"} <= m.Keys
      && m["op"] == Str(ToStr(request["op"]))
      && m["domain"] == Str(domain)
      && m["timestamp"] == Int(now)
      && ("id" in m <==> IsSet(request, "id"))
      && (IsSet(request, "id") ==> m["id"] == Str(ToStr(request["id"])))
    }

    /**
     * Handles a checked request: `op` then `return` must be set; `append`,
     * `delete` and `read` are carried out, any other op is answered with
     * status `unknown-op`; the response goes to the request's return URL.
     */
    function HandleRequest(request: Message, cookie: Option<Bytes>, now: int): (r: Result<Exchange, Error>)
      ensures !IsSet(request, "op") ==> r == Err(MissingOp)
      ensures IsSet(request, "op") && !IsSet(request, "return") ==> r == Err(MissingReturn)
      ensures r.Ok? ==> IsSet(request, "op") && IsSet(request, "return") && Answers(request, r.value.reply, now)
    {
      if !IsSet(request, "op") then Err(MissingOp)
      else
        var op := ToStr(request["op"]);
        if !IsSet(request, "return") then Err(MissingReturn)
        else
          var returnTo := ToStr(request["return"]);
          match Operate(request, op, cookie)
          case Err(e) => Err(e)
          case Ok((result, write)) =>
            Ok(Exchange(write, Send(returnTo, ResponseParameter, Respond(request, op, result), now)))
    }

    /**
     * The switch on `op`: the operation's result and the cookie it writes.
     * An op other than `append`, `delete` and `read` is not an error.
     */
    function Operate(request: Message, op: Bytes, cookie: Option<Bytes>): (r: Result<(Message, Option<CookieWrite>), Error>)
      ensures r.Ok? ==> "status" in r.value.0
      ensures r.Ok? ==> "op" !in r.value.0 && "id" !in r.value.0 && "domain" !in r.value.0 && "timestamp" !in r.value.0
    {
      if op == "append" then
        match AppendOutcome(request, cookie)
        case Err(e) => Err(e)
        case Ok(w) => Ok((map["status" := Str("ok")], Some(w)))
      else if op == "delete" then Ok((map["status" := Str("ok")], Some(HandleDelete())))
      else if op == "read" then
        match HandleRead(cookie)
        case Err(e) => Err(e)
        case Ok(m) => Ok((m, None))
      else Ok((map["status" := Str("unknown-op")], None))
    }

    /** `getCDC`: the identity list in the cookie, each entry checked and decoded in place. */
    method GetCDC(cookie: Option<Bytes>) returns (r: Result<seq<Bytes>, Error>)
      ensures r == CookieList.Decode(cookie, host.isValidUri)
    {
      if cookie.None? {
        return Ok([]);
      }
      var tokens := Split(cookie.value);
      var ret := tokens;
      var i := 0;
      while i < |ret|
        invariant 0 <= i <= |ret| == |tokens|
        invariant forall j :: i <= j < |ret| ==> ret[j] == tokens[j]
        invariant forall j :: 0 <= j < i ==> CookieList.DecodeToken(tokens[j], host.isValidUri) == Ok(ret[j])
      {
        assert ret[i] == tokens[i];
        if !Base64.IsValid(ret[i]) {
          CookieList.DecodeTokensFirstError(tokens, i, host.isValidUri);
          return Err(BadBase64);
        }
        var entry := Base64.Decode(ret[i]).value;
        if !host.isValidUri(entry) {
          CookieList.DecodeTokensFirstError(tokens, i, host.isValidUri);
          return Err(BadUri);
        }
        assert CookieList.DecodeToken(tokens[i], host.isValidUri) == Ok(entry);
        ret := ret[i := entry];
        i := i + 1;
      }
      CookieList.DecodeTokensPointwise(tokens, ret, host.isValidUri);
      return Ok(ret);
    }

    /**
     * `setCDC`: encodes the entries in place, joins them, and drops the
     * oldest token while the value is too long and still holds a space.
     */
    method SetCDC(list: seq<Bytes>) returns (w: CookieWrite)
      ensures w == CookieHeader(Some(CookieList.Encode(list)), Some(cookieLifetime))
    {
      var tokens := list;
      var i := 0;
      while i < |tokens|
        invariant 0 <= i <= |tokens| == |list|
        invariant forall j :: 0 <= j < i ==> tokens[j] == Base64.Encode(list[j])
        invariant tokens[i..] == list[i..]
      {
        assert tokens[i] == list[i];
        tokens := tokens[i := Base64.Encode(tokens[i])];
        i := i + 1;
      }
      assert tokens == CookieList.EncodeAll(list);
      CookieList.EncodeAllNoSpaces(list);
      var cookie := Join(tokens);
      ghost var k := 0;
      while |cookie| > CookieList.MaxLength
        invariant k <= |tokens| && cookie == Join(tokens[k..])
        invariant CookieList.Truncate(tokens[k..]) == CookieList.Truncate(tokens)
        decreases |cookie|
      {
        NoSpacesDrop(tokens, k);
        var parts := SplitOnce(cookie);
        if |parts| == 1 {
          break;
        }
        SplitOnceJoin(tokens[k..]);
        assert tokens[k..][1..] == tokens[k + 1..];
        cookie := parts[1];
        k := k + 1;
      }
      assert CookieList.Truncate(tokens[k..]) == tokens[k..];
      w := CookieHeader(Some(cookie), Some(cookieLifetime));
    }

    /**
     * `handleAppend`: reads the list, removes the first entry equal to the
     * entity ID, appends the entity ID and writes the list back.
     */
    method HandleAppend(request: Message, cookie: Option<Bytes>) returns (r: Result<CookieWrite, Error>)
      ensures r == AppendOutcome(request, cookie)
    {
      if !IsSet(request, "entityID") {
        return Err(MissingEntityID);
      }
      var entityID := ToStr(request["entityID"]);
      var read := GetCDC(cookie);
      if read.Err? {
        return Err(read.error);
      }
      var list := read.value;
      var prevIndex := FirstIndex(list, entityID);
      if prevIndex.Some? {
        list := list[..prevIndex.value] + list[prevIndex.value + 1..];
      }
      list := list + [entityID];
      assert list == IdentityList.MoveToEnd(read.value, entityID);
      var w := SetCDC(list);
      return Ok(w);
    }
  }

  /**
   * Builds the server for `domain` from its configuration entry; fails for
   * an unconfigured domain and for the example key. The cookie lifetime
   * defaults to 0, a session cookie.
   */
  function NewServer(domain: Bytes, configs: map<Bytes, DomainConfig>, host: Host): (r: Result<Server, Error>)
    ensures domain !in configs ==> r == Err(UnknownDomain)
    ensures domain in configs ==> (r.Ok? <==> configs[domain].key != ExampleSharedKey)
    ensures r.Err? && domain in configs ==> r == Err(DefaultKey)
    ensures r.Ok? ==>
      && r.value.domain == domain
      && r.value.server == configs[domain].server
      && r.value.key == configs[domain].key
      && r.value.host == host
      && r.value.cookieLifetime == (match configs[domain].cookieLifetime case Some(t) => t case None => 0)
  {
    if domain !in configs then Err(UnknownDomain)
    else
      var config := configs[domain];
      var lifetime := match config.cookieLifetime case Some(t) => t case None => 0;
      var server := Server(domain, config.server, config.key, lifetime, host);
      if server.key == ExampleSharedKey then Err(DefaultKey) else Ok(server)
  }

  /**
   * Processes a request arriving at the domain server: reads it, builds the
   * server for the domain the request declares, checks the signature with
   * that domain's key, then handles it.
   */
  function ProcessRequest(configs: map<Bytes, DomainConfig>, host: Host, params: map<Bytes, Bytes>,
                          cookie: Option<Bytes>, now: int): (r: Result<Exchange, Error>)
    ensures RequestParameter !in params ==> r == Err(MissingRequest)
    ensures Get(RequestParameter, params, now, host).Err? ==> r.Err? && r.error == Get(RequestParameter, params, now, host).error
    ensures r.Ok? ==>
      var request := Get(RequestParameter, params, now, host).value.value;
      && request["domain"].Str?
      && var d := request["domain"].s;
      && d in configs && configs[d].key != ExampleSharedKey
      && RequestParameter in params && SignatureParameter in params
      && params[SignatureParameter] == host.sha1(configs[d].key + params[RequestParameter] + configs[d].key)
      && "domain" in r.value.reply.message && r.value.reply.message["domain"] == Str(d)
  {
    match Get(RequestParameter, params, now, host)
    case Err(e) => Err(e)
    case Ok(None) => Err(MissingRequest)
    case Ok(Some(request)) =>
      var domain := request["domain"];
      if !domain.Str? then Err(DomainNotString)
      else
        match NewServer(domain.s, configs, host)
        case Err(e) => Err(e)
        case Ok(server) =>
          match server.Validate(RequestParameter, params)
          case Err(e) => Err(e)
          case Ok(_) => server.HandleRequest(request, cookie, now)
  }
}
