/**
 * Properties of the CDC protocol that relate several operations: what each
 * op answers, that a sealed message passes the receiver's checks and only
 * under the sender's key, that a request sent by one server of a domain is
 * handled and answered back to it, and what a read after an append reports.
 */
module CdcProperties {
  import opened Wrappers
  import opened Text
  import opened Values
  import opened Errors
  import CookieList
  import IdentityList
  import Base64
  import opened Cdc

  /** An op other than append, delete and read is answered with status `unknown-op` and writes no cookie. */
  lemma UnknownOpAnswered(s: Server, request: Message, cookie: Option<Bytes>, now: int)
    requires IsSet(request, "op") && IsSet(request, "return")
    requires ToStr(request["op"]) != "append" && ToStr(request["op"]) != "delete" && ToStr(request["op"]) != "read"
    ensures var r := s.HandleRequest(request, cookie, now);
      && r.Ok? && r.value.cookie.None?
      && r.value.reply.message["status"] == Str("unknown-op")
  {
  }

  /** A delete deletes the cookie for the whole domain and answers `ok`. */
  lemma DeleteClearsCookie(s: Server, request: Message, cookie: Option<Bytes>, now: int)
    requires IsSet(request, "op") && IsSet(request, "return") && ToStr(request["op"]) == "delete"
    ensures var r := s.HandleRequest(request, cookie, now);
      && r.Ok? && r.value.cookie == Some(s.HandleDelete())
      && r.value.cookie.value.value.None?
      && r.value.reply.message["status"] == Str("ok")
  {
  }

  /** A read reports the identity list in the cookie, or fails as reading the cookie fails; it writes no cookie. */
  lemma ReadReportsList(s: Server, request: Message, cookie: Option<Bytes>, now: int)
    requires IsSet(request, "op") && IsSet(request, "return") && ToStr(request["op"]) == "read"
    ensures var r, d := s.HandleRequest(request, cookie, now), CookieList.Decode(cookie, s.host.isValidUri);
      && (d.Err? ==> r == Err(d.error))
      && (d.Ok? ==>
            && r.Ok? && r.value.cookie.None?
            && r.value.reply.message["status"] == Str("ok")
            && r.value.reply.message["cdc"] == Entries(d.value))
  {
  }

  /** An append writes the cookie AppendOutcome describes and answers `ok`, or fails as it fails. */
  lemma AppendWritesCookie(s: Server, request: Message, cookie: Option<Bytes>, now: int)
    requires IsSet(request, "op") && IsSet(request, "return") && ToStr(request["op"]) == "append"
    ensures var r, a := s.HandleRequest(request, cookie, now), s.AppendOutcome(request, cookie);
      && (a.Err? ==> r == Err(a.error))
      && (a.Ok? ==>
            && r.Ok? && r.value.cookie == Some(a.value)
            && r.value.reply.message["status"] == Str("ok"))
  {
  }

  /** A sealed message carries the signature its receiver computes with the same key. */
  lemma SealValidates(s: Server, parameter: Bytes, stamped: Message)
    requires parameter != SignatureParameter
    ensures s.Validate(parameter, s.Seal(parameter, stamped)) == Ok(())
  {
  }

  /**
   * A sent message that names a domain is read back, within the time window,
   * exactly as it was stamped.
   */
  lemma SendThenGet(s: Server, to: Bytes, parameter: Bytes, message: Message, now: int, later: int)
    requires s.host.Valid() && parameter != SignatureParameter
    requires IsSet(message, "domain")
    requires later - Window <= now <= later + Window
    ensures Get(parameter, s.Send(to, parameter, message, now).fields, later, s.host)
      == Ok(Some(message["timestamp" := Int(now)]))
  {
    var out := s.Send(to, parameter, message, now);
    var json := s.host.jsonEncode(out.message);
    assert s.host.jsonDecode(json) == Object(out.message);
    Base64.EncodeIsValid(json);
    Base64.DecodeEncode(json);
    assert out.fields[parameter] == Base64.Encode(json);
  }

  /** Keyed texts under different keys differ, whatever the text between them. */
  lemma KeyedTextsDiffer(k1: Bytes, k2: Bytes, raw: Bytes)
    requires k1 != k2
    ensures k1 + raw + k1 != k2 + raw + k2
  {
    if |k1| == |k2| {
      var i :| 0 <= i < |k1| && k1[i] != k2[i];
      assert (k1 + raw + k1)[i] == k1[i];
      assert (k2 + raw + k2)[i] == k2[i];
    } else {
      assert |k1 + raw + k1| != |k2 + raw + k2|;
    }
  }

  /**
   * With a digest that tells its inputs apart, two servers with different
   * keys never compute the same signature for the same message text.
   */
  lemma SignatureBindsKey(s1: Server, s2: Server, raw: Bytes)
    requires s1.host == s2.host && s1.key != s2.key
    requires forall a, b :: s1.host.sha1(a) == s1.host.sha1(b) ==> a == b
    ensures s1.CalcSignature(raw) != s2.CalcSignature(raw)
  {
    KeyedTextsDiffer(s1.key, s2.key, raw);
  }

  /**
   * A timestamp sent as the decimal text of a number is read back as that
   * number, so the freshness check treats it exactly like the number itself.
   */
  lemma TextTimestampFresh(m: Message, t: int, now: int)
    requires "timestamp" in m && m["timestamp"] == Str(ToStr(Int(t)))
    ensures Fresh(m, now) <==> now - Window <= t <= now + Window
  {
    assert ToInt(m["timestamp"]) == t;
  }

  /**
   * With a digest that tells its inputs apart, a message sealed under one
   * key is refused under any other key as an invalid signature.
   */
  lemma OtherKeyRejects(s1: Server, s2: Server, parameter: Bytes, stamped: Message)
    requires s1.host == s2.host && s1.key != s2.key && parameter != SignatureParameter
    requires forall a, b :: s1.host.sha1(a) == s1.host.sha1(b) ==> a == b
    ensures s2.Validate(parameter, s1.Seal(parameter, stamped)) == Err(InvalidSignature)
  {
    var raw := Base64.Encode(s1.host.jsonEncode(stamped));
    SignatureBindsKey(s1, s2, raw);
    assert s1.Seal(parameter, stamped)[parameter] == raw;
  }

  /**
   * A response declaring another domain is refused as such before its
   * signature is looked at: replacing the signature changes nothing.
   */
  lemma ForeignResponseRefused(s: Server, params: map<Bytes, Bytes>, signature: Bytes, now: int)
    requires var g := Get(ResponseParameter, params, now, s.host);
      g.Ok? && g.value.Some? && g.value.value["domain"] != Str(s.domain)
    ensures s.GetResponse(params, now) == Err(WrongDomain)
    ensures s.GetResponse(params[SignatureParameter := signature], now) == Err(WrongDomain)
  {
    var forged := params[SignatureParameter := signature];
    assert ResponseParameter in forged && forged[ResponseParameter] == params[ResponseParameter];
    assert Get(ResponseParameter, forged, now, s.host) == Get(ResponseParameter, params, now, s.host);
  }

  /**
   * A request sent by a server of a configured domain, arriving within the
   * time window, passes every check and is handled exactly as it was stamped.
   */
  lemma RequestAccepted(configs: map<Bytes, DomainConfig>, host: Host, d: Bytes, c: Server,
                                           request: Message, cookie: Option<Bytes>, now: int, later: int)
    requires NewServer(d, configs, host) == Ok(c) && host.Valid()
    requires "return" in request && "op" in request
    requires later - Window <= now <= later + Window
    ensures var sent := c.SendRequest(request, now);
      && sent.Ok?
      && ProcessRequest(configs, host, sent.value.fields, cookie, later)
         == c.HandleRequest(request["domain" := Str(d)]["timestamp" := Int(now)], cookie, later)
  {
    var out := c.SendRequest(request, now).value;
    SendThenGet(c, c.server, RequestParameter, request["domain" := Str(d)], now, later);
    SealValidates(c, RequestParameter, out.message);
  }

  /** The response to a handled request, arriving within the time window, is accepted by the same domain. */
  lemma ResponseAccepted(s: Server, request: Message, cookie: Option<Bytes>, now: int, later: int)
    requires s.host.Valid() && s.HandleRequest(request, cookie, now).Ok?
    requires later - Window <= now <= later + Window
    ensures var reply := s.HandleRequest(request, cookie, now).value.reply;
      s.GetResponse(reply.fields, later) == Ok(Some(reply.message))
  {
    var op := ToStr(request["op"]);
    var result := s.Operate(request, op, cookie).value.0;
    var response := s.Respond(request, op, result);
    SendThenGet(s, ToStr(request["return"]), ResponseParameter, response, now, later);
    SealValidates(s, ResponseParameter, response["timestamp" := Int(now)]);
  }

  /**
   * The whole exchange: a client request for `op` is handled by the domain
   * server, and the response it sends to the return URL is accepted by the
   * client, echoing the op.
   */
  lemma ProtocolRoundTrip(configs: map<Bytes, DomainConfig>, host: Host, d: Bytes, c: Server,
                                             returnTo: Bytes, op: Bytes, params: Message, cookie: Option<Bytes>,
                                             t0: int, t1: int, t2: int)
    requires NewServer(d, configs, host) == Ok(c) && host.Valid()
    requires t1 - Window <= t0 <= t1 + Window && t2 - Window <= t1 <= t2 + Window
    requires ProcessRequest(configs, host, c.ClientRequest(returnTo, op, params, t0).fields, cookie, t1).Ok?
    ensures var x := ProcessRequest(configs, host, c.ClientRequest(returnTo, op, params, t0).fields, cookie, t1).value;
      && x.reply.to == returnTo
      && x.reply.message["op"] == Str(op)
      && c.GetResponse(x.reply.fields, t2) == Ok(Some(x.reply.message))
  {
    var stamped := params["op" := Str(op)]["return" := Str(returnTo)]["domain" := Str(d)]["timestamp" := Int(t0)];
    ClientRequestAccepted(configs, host, d, c, returnTo, op, params, cookie, t0, t1);
    var x := c.HandleRequest(stamped, cookie, t1).value;
    assert stamped["op"] == Str(op) && stamped["return"] == Str(returnTo);
    assert c.Answers(stamped, x.reply, t1);
    ResponseAccepted(c, stamped, cookie, t1, t2);
  }

  /** A client's request arriving within the time window is handled as the message the client stamped. */
  lemma ClientRequestAccepted(configs: map<Bytes, DomainConfig>, host: Host, d: Bytes, c: Server,
                              returnTo: Bytes, op: Bytes, params: Message, cookie: Option<Bytes>, t0: int, t1: int)
    requires NewServer(d, configs, host) == Ok(c) && host.Valid()
    requires t1 - Window <= t0 <= t1 + Window
    ensures ProcessRequest(configs, host, c.ClientRequest(returnTo, op, params, t0).fields, cookie, t1)
      == c.HandleRequest(params["op" := Str(op)]["return" := Str(returnTo)]["domain" := Str(d)]["timestamp" := Int(t0)], cookie, t1)
  {
    var request := params["op" := Str(op)]["return" := Str(returnTo)];
    RequestAccepted(configs, host, d, c, request, cookie, t0, t1);
    assert c.ClientRequest(returnTo, op, params, t0) == c.SendRequest(request, t0).value;
  }

  /** Every entry of MoveToEnd(list, e) is e or an entry of list. */
  lemma MoveToEndEntries(list: seq<Bytes>, e: Bytes, validUri: Bytes -> bool)
    requires CookieList.Storable(list, validUri) && |e| > 0 && validUri(e)
    ensures CookieList.Storable(IdentityList.MoveToEnd(list, e), validUri)
  {
    var moved := IdentityList.MoveToEnd(list, e);
    forall i | 0 <= i < |moved| ensures |moved[i]| > 0 && validUri(moved[i]) {
      match FirstIndex(list, e)
      case None =>
        if i < |list| {
          assert moved[i] == list[i];
        }
      case Some(j) =>
        if i < j {
          assert moved[i] == list[i];
        } else if i < |list| - 1 {
          assert moved[i] == list[i + 1];
        }
    }
  }

  /**
   * Reading the cookie an append wrote gives the newest entries of the list
   * with the entity moved to its end: never empty, the entity last, and no
   * entry twice when the list had none twice; when everything fits, the
   * whole list with the entity's earlier entry removed.
   */
  lemma AppendThenRead(s: Server, request: Message, cookie: Option<Bytes>)
    requires s.AppendOutcome(request, cookie).Ok?
    requires var e := ToStr(request["entityID"]); |e| > 0 && s.host.isValidUri(e)
    ensures
      var list := CookieList.Decode(cookie, s.host.isValidUri).value;
      var e := ToStr(request["entityID"]);
      var moved := IdentityList.MoveToEnd(list, e);
      var w := s.AppendOutcome(request, cookie).value;
      && w.value.Some?
      && CookieList.Decode(w.value, s.host.isValidUri) == Ok(moved[CookieList.Dropped(moved)..])
      && |moved[CookieList.Dropped(moved)..]| > 0
      && moved[|moved| - 1] == e
      && (IdentityList.NoDuplicates(list) ==>
            && IdentityList.NoDuplicates(moved[CookieList.Dropped(moved)..])
            && (|Join(CookieList.EncodeAll(moved))| <= CookieList.MaxLength ==>
                  moved[CookieList.Dropped(moved)..] == IdentityList.Without(list, e) + [e]))
  {
    var list := CookieList.Decode(cookie, s.host.isValidUri).value;
    var e := ToStr(request["entityID"]);
    var moved := IdentityList.MoveToEnd(list, e);
    CookieList.DecodeStorable(cookie, s.host.isValidUri);
    MoveToEndEntries(list, e, s.host.isValidUri);
    CookieList.RoundTrip(moved, s.host.isValidUri);
    CookieList.EncodeDropsOldest(moved);
    var k := CookieList.Dropped(moved);
    if IdentityList.NoDuplicates(list) {
      IdentityList.MoveToEndNoDuplicates(list, e);
      IdentityList.MoveToEndKeepsOrder(list, e);
      NoDuplicatesSuffix(moved, k);
      if |Join(CookieList.EncodeAll(moved))| <= CookieList.MaxLength {
        CookieList.RoundTripWhenFits(moved, s.host.isValidUri);
      }
    }
  }

  /**
   * The entity ID is not checked before it is appended: when it is empty or
   * not a valid URI, a non-empty cookie written can no longer be read. A
   * non-empty entity ID always gives a non-empty cookie; an empty one may
   * give the empty cookie value, which the browser treats as a deletion.
   */
  lemma UncheckedEntityBreaksReads(s: Server, request: Message, cookie: Option<Bytes>)
    requires s.AppendOutcome(request, cookie).Ok?
    requires var e := ToStr(request["entityID"]); |e| == 0 || !s.host.isValidUri(e)
    ensures
      var written := s.AppendOutcome(request, cookie).value.value.value;
      && (|ToStr(request["entityID"])| > 0 ==> |written| > 0)
      && (|written| > 0 ==> CookieList.Decode(Some(written), s.host.isValidUri).Err?)
  {
    var list := CookieList.Decode(cookie, s.host.isValidUri).value;
    var e := ToStr(request["entityID"]);
    var moved := IdentityList.MoveToEnd(list, e);
    CookieList.EncodeDropsOldest(moved);
    var kept := moved[CookieList.Dropped(moved)..];
    var ts := CookieList.EncodeAll(kept);
    CookieList.EncodeAllNoSpaces(kept);
    SplitJoin(ts);
    assert ts[|ts| - 1] == Base64.Encode(e);
    JoinDropIsSuffix(ts, |ts| - 1);
    if |e| == 0 {
      assert Base64.Encode(e) == [];
    } else {
      Base64.EncodeIsValid(e);
      Base64.DecodeEncode(e);
    }
    assert CookieList.DecodeToken(ts[|ts| - 1], s.host.isValidUri).Err?;
  }

  /** The newest entries of a list with no entry twice have no entry twice. */
  lemma NoDuplicatesSuffix(list: seq<Bytes>, k: nat)
    requires IdentityList.NoDuplicates(list) && k <= |list|
    ensures IdentityList.NoDuplicates(list[k..])
  {
    var rest := list[k..];
    forall i, j | 0 <= i < j < |rest| ensures rest[i] != rest[j] {
      assert rest[i] == list[k + i] && rest[j] == list[k + j];
    }
  }
}
