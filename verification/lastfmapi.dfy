/**
 * The Last.fm client of src/lastfmapi.rs over already-decoded data: the
 * signed parameter sets of `auth.getSession` and `track.scrobble`, and the
 * classification of each call's reply. The HTTP exchange is a function
 * `server` from the form sent to the reply received.
 */
module LastfmApi {
  import opened Wrappers
  import opened Lexicographic
  import opened KeySort
  import opened Decimal
  import opened Bytes
  import opened Signature
  import opened Xml
  import JsonValue

  /** `ApiError`: the four ways a call can fail. */
  datatype ApiError =
    | Generic(message: string)
    | Json
    | Parse(message: string)
    | Unscrobbled(reason: string)

  /** `AuthConfig`: the credentials every call is made with. */
  datatype AuthConfig = AuthConfig(apiKey: string, secretKey: string, sessionKey: string)

  /**
   * How a call ends: with a value or an `ApiError`, or by panicking on an
   * `unwrap()` of an absent value.
   */
  datatype Run<+T, +E> = Returned(result: Result<T, E>) | Panicked

  /**
   * The outcome of one HTTP exchange: the request could not be sent (with
   * the transport's message), or a reply arrived with a success or failure
   * status and a decoded body.
   */
  datatype HttpReply<+B> = Unsent(error: string) | Received(success: bool, body: B)

  /** An XML reply body after `Element::parse`: the root element, or the parser's message. */
  type XmlDoc = Result<Element, string>

  /** A JSON reply body after `response.json()`: None when it is not JSON. */
  type JsonDoc = Option<JsonValue.Value>

  const UnsuccessfulRequest: string := "Unsuccessfull request"

  /** Body of a successful reply; a transport failure or a failure status is `Generic`. */
  function ReplyBody<B>(reply: HttpReply<B>): (r: Result<B, ApiError>)
    ensures r.Success? <==> reply.Received? && reply.success
    ensures r.Success? ==> r.value == reply.body
    ensures reply.Unsent? ==> r == Failure(Generic(reply.error))
    ensures reply.Received? && !reply.success ==> r == Failure(Generic(UnsuccessfulRequest))
  {
    match reply
    case Unsent(e) => Failure(Generic(e))
    case Received(success, body) =>
      if success then Success(body) else Failure(Generic(UnsuccessfulRequest))
  }

  // ---------------------------------------------------------------------
  // auth.gettoken

  /** The `token` string of the reply, which must be an object with a string `token` field. */
  function TokenFromJson(v: JsonValue.Value): (r: Result<string, ApiError>)
    ensures r.Success? <==> v.Object? && "token" in v.fields && v.fields["token"].String?
    ensures r.Success? ==> r.value == v.fields["token"].s
    ensures r.Failure? ==> r.error == Json
  {
    match v
    case Object(fields) =>
      if "token" in fields then
        match fields["token"]
        case String(s) => Success(s)
        case _ => Failure(Json)
      else
        Failure(Json)
    case _ => Failure(Json)
  }

  /** `get_request_token`: an unparseable JSON body panics (`response.json().unwrap()`). */
  function GetRequestToken(reply: HttpReply<JsonDoc>): (r: Run<string, ApiError>)
    ensures r.Panicked? <==> reply.Received? && reply.success && reply.body.None?
    ensures r.Returned? && r.result.Success? <==>
      reply.Received? && reply.success && reply.body.Some? && TokenFromJson(reply.body.value).Success?
    ensures r.Returned? && r.result.Success? ==> r.result.value == reply.body.value.fields["token"].s
    ensures r.Returned? && r.result.Failure? ==> r.result.error.Generic? || r.result.error == Json
    ensures r.Returned? && r.result.Failure? ==> (r.result.error.Generic? <==> !(reply.Received? && reply.success))
    ensures reply.Unsent? ==> r == Returned(Failure(Generic(reply.error)))
    ensures reply.Received? && !reply.success ==> r == Returned(Failure(Generic(UnsuccessfulRequest)))
  {
    match ReplyBody(reply)
    case Failure(e) => Returned(Failure(e))
    case Success(body) =>
      match body
      case None => Panicked
      case Some(v) => Returned(TokenFromJson(v))
  }

  // ---------------------------------------------------------------------
  // auth.getSession

  const SessionKeySet: set<string> := {"api_key", "method", "token"}

  /** The `auth.getSession` parameters before signing. */
  function SessionParams(apiKey: string, requestToken: string): (p: Params)
    ensures p.Keys == SessionKeySet
    ensures ApiSigKey !in p
    ensures p["api_key"] == apiKey && p["method"] == "auth.getSession" && p["token"] == requestToken
  {
    map["api_key" := apiKey, "method" := "auth.getSession", "token" := requestToken]
  }

  /** The session parameter names in ascending order are api_key, method, token. */
  lemma SessionKeysAscending()
    ensures Ascending(SessionKeySet) == ["api_key", "method", "token"]
  {
    var lit := ["api_key", "method", "token"];
    assert Sorted(lit);
    assert multiset(lit) == multiset(SessionKeySet);
    SortedUnique(Ascending(SessionKeySet), lit);
  }

  /**
   * The session pre-image, whatever order the hash map yields its keys in:
   * "api_key" key "method" "auth.getSession" "token" token, then the secret.
   */
  lemma SessionPreImage(apiKey: string, requestToken: string, order: seq<string>, secret: string)
    requires IsEnumeration(order, SessionKeySet)
    ensures PreImage(SessionParams(apiKey, requestToken), order, secret)
      == "api_key" + apiKey + "method" + "auth.getSession" + "token" + requestToken + secret
  {
    SessionKeysAscending();
    Pairs3("api_key", "method", "token", SessionParams(apiKey, requestToken));
  }

  /**
   * The form `get_session_token` posts: the session parameters plus their
   * `api_sig`. `order` is the order the hash map yields the keys in.
   */
  function SessionForm(config: AuthConfig, requestToken: string, order: seq<string>, md5: Md5): (form: Params)
    requires IsEnumeration(order, SessionKeySet)
    ensures form.Keys == SessionKeySet + {ApiSigKey}
    ensures form - {ApiSigKey} == SessionParams(config.apiKey, requestToken)
    ensures Unhex(form["api_sig"]) == Some(md5(Utf8(
      "api_key" + config.apiKey + "method" + "auth.getSession" + "token" + requestToken + config.secretKey)))
  {
    SessionPreImage(config.apiKey, requestToken, order, config.secretKey);
    SignedForm(SessionParams(config.apiKey, requestToken), order, config.secretKey, md5)
  }

  const SessionPath: seq<string> := ["session", "key"]

  /** The session key: the text of `session/key` under the root element. */
  function SessionKeyFromXml(doc: XmlDoc): (r: Result<string, ApiError>)
    ensures r.Success? <==> doc.Success? && Descend(doc.value, SessionPath).Some? && Descend(doc.value, SessionPath).value.text.Some?
    ensures r.Success? ==> r.value == Descend(doc.value, SessionPath).value.text.value
    ensures r.Failure? ==> r.error.Parse?
    ensures doc.Failure? ==> r == Failure(Parse(doc.error))
    ensures doc.Success? && GetChild(doc.value, "session").None? ==> r == Failure(Parse("xml tag session"))
    ensures doc.Success? && GetChild(doc.value, "session").Some? && Descend(doc.value, SessionPath).None?
      ==> r == Failure(Parse("xml tag key"))
    ensures doc.Success? && Descend(doc.value, SessionPath).Some? && Descend(doc.value, SessionPath).value.text.None?
      ==> r == Failure(Parse("xml text"))
  {
    match doc
    case Failure(message) => Failure(Parse(message))
    case Success(root) =>
      match GetChild(root, "session")
      case None => Failure(Parse("xml tag session"))
      case Some(session) =>
        match GetChild(session, "key")
        case None => Failure(Parse("xml tag key"))
        case Some(key) =>
          match key.text
          case None => Failure(Parse("xml text"))
          case Some(t) => Success(t)
  }

  /**
   * How `get_session_token` reads the reply to its form: it succeeds exactly
   * when the reply has a success status and a readable session key.
   */
  function SessionReplyOutcome(reply: HttpReply<XmlDoc>): (r: Result<string, ApiError>)
    ensures r.Success? <==> reply.Received? && reply.success && SessionKeyFromXml(reply.body).Success?
    ensures r.Success? ==> r.value == SessionKeyFromXml(reply.body).value
    ensures r.Failure? ==> r.error.Generic? || r.error.Parse?
    ensures r.Failure? && r.error.Generic? <==> !(reply.Received? && reply.success)
    ensures reply.Unsent? ==> r == Failure(Generic(reply.error))
    ensures reply.Received? && !reply.success ==> r == Failure(Generic(UnsuccessfulRequest))
    ensures reply.Received? && reply.success ==> r == SessionKeyFromXml(reply.body)
  {
    match ReplyBody(reply)
    case Failure(e) => Failure(e)
    case Success(doc) => SessionKeyFromXml(doc)
  }

  /** `get_session_token`: post the signed session form and read the session key from the reply. */
  function GetSessionToken(config: AuthConfig, requestToken: string, order: seq<string>, md5: Md5, server: Params -> HttpReply<XmlDoc>): (r: Result<string, ApiError>)
    requires IsEnumeration(order, SessionKeySet)
    ensures r.Failure? ==> r.error.Generic? || r.error.Parse?
    ensures var reply := server(SessionForm(config, requestToken, order, md5));
      r.Success? <==> reply.Received? && reply.success && SessionKeyFromXml(reply.body).Success?
    ensures var reply := server(SessionForm(config, requestToken, order, md5));
      reply.Received? && reply.success ==> r == SessionKeyFromXml(reply.body)
    ensures var reply := server(SessionForm(config, requestToken, order, md5));
      reply.Received? && !reply.success ==> r == Failure(Generic(UnsuccessfulRequest))
    ensures var reply := server(SessionForm(config, requestToken, order, md5));
      reply.Unsent? ==> r == Failure(Generic(reply.error))
  {
    SessionReplyOutcome(server(SessionForm(config, requestToken, order, md5)))
  }

  // ---------------------------------------------------------------------
  // track.scrobble

  const ScrobbleKeySet: set<string> := {"api_key", "method", "artist", "track", "timestamp", "sk"}

  /** The `track.scrobble` parameters before signing; `when` is in unix seconds. */
  function ScrobbleParams(config: AuthConfig, artist: string, track: string, when: int): (p: Params)
    ensures p.Keys == ScrobbleKeySet
    ensures ApiSigKey !in p
    ensures p["api_key"] == config.apiKey && p["method"] == "track.scrobble" && p["sk"] == config.sessionKey
    ensures p["artist"] == artist && p["track"] == track && p["timestamp"] == FormatInt(when)
    ensures I64Min <= when <= I64Max ==> ParseI64(p["timestamp"]) == Some(when)
  {
    FormatParseRoundTrip(if I64Min <= when <= I64Max then when else 0);
    map[
      "api_key" := config.apiKey,
      "method" := "track.scrobble",
      "artist" := artist,
      "track" := track,
      "timestamp" := FormatInt(when),
      "sk" := config.sessionKey]
  }

  /** The scrobble parameter names in ascending order. */
  lemma ScrobbleKeysAscending()
    ensures Ascending(ScrobbleKeySet) == ["api_key", "artist", "method", "sk", "timestamp", "track"]
  {
    var lit := ["api_key", "artist", "method", "sk", "timestamp", "track"];
    assert Below("api_key", "artist");
    assert Below("artist", "method");
    assert Below("method", "sk");
    assert Below("sk", "timestamp");
    assert Below("timestamp", "track");
    ChainSorted(lit);
    assert multiset(lit) == multiset(ScrobbleKeySet) by {
      assert ScrobbleKeySet == {"api_key", "artist", "method", "sk", "timestamp", "track"};
    }
    SortedUnique(Ascending(ScrobbleKeySet), lit);
  }

  /** The scrobble parameters written out in ascending key order. */
  lemma ScrobblePairs(config: AuthConfig, artist: string, track: string, when: int)
    ensures Pairs(["api_key", "artist", "method", "sk", "timestamp", "track"], ScrobbleParams(config, artist, track, when))
      == "api_key" + config.apiKey + "artist" + artist + "method" + "track.scrobble"
         + "sk" + config.sessionKey + "timestamp" + FormatInt(when) + "track" + track
  {
    Pairs6("api_key", "artist", "method", "sk", "timestamp", "track", ScrobbleParams(config, artist, track, when));
  }

  /** The scrobble pre-image, whatever order the hash map yields its keys in. */
  lemma ScrobblePreImage(config: AuthConfig, artist: string, track: string, when: int, order: seq<string>)
    requires IsEnumeration(order, ScrobbleKeySet)
    ensures PreImage(ScrobbleParams(config, artist, track, when), order, config.secretKey)
      == "api_key" + config.apiKey + "artist" + artist + "method" + "track.scrobble"
         + "sk" + config.sessionKey + "timestamp" + FormatInt(when) + "track" + track + config.secretKey
  {
    var p := ScrobbleParams(config, artist, track, when);
    ScrobbleKeysAscending();
    ScrobblePairs(config, artist, track, when);
    assert PreImage(p, order, config.secretKey) == Pairs(Ascending(ScrobbleKeySet), p) + config.secretKey;
  }

  /** The form `scrobble` posts: the scrobble parameters plus their `api_sig`. */
  function ScrobbleForm(config: AuthConfig, artist: string, track: string, when: int, order: seq<string>, md5: Md5): (form: Params)
    requires IsEnumeration(order, ScrobbleKeySet)
    ensures form.Keys == ScrobbleKeySet + {ApiSigKey}
    ensures form - {ApiSigKey} == ScrobbleParams(config, artist, track, when)
    ensures Unhex(form["api_sig"]) == Some(md5(Utf8(
      "api_key" + config.apiKey + "artist" + artist + "method" + "track.scrobble"
      + "sk" + config.sessionKey + "timestamp" + FormatInt(when) + "track" + track + config.secretKey)))
  {
    ScrobblePreImage(config, artist, track, when, order);
    SignedForm(ScrobbleParams(config, artist, track, when), order, config.secretKey, md5)
  }

  /** The accepted and ignored counts of a scrobble reply. */
  datatype Counts = Counts(accepted: int, ignored: int)

  /** The `scrobbles` element under the root, if the body parsed and has one. */
  function ScrobblesElement(doc: XmlDoc): Option<Element>
  {
    if doc.Success? then GetChild(doc.value, "scrobbles") else None
  }

  /** A count attribute of `scrobbles`; `missing` names the error for its absence. */
  function CountAttribute(scrobbles: Element, key: string, missing: string): (r: Result<int, ApiError>)
    ensures r.Success? <==> key in scrobbles.attributes && ParseI64(scrobbles.attributes[key]).Some?
    ensures r.Success? ==> r.value == ParseI64(scrobbles.attributes[key]).value
    ensures r.Success? ==> I64Min <= r.value <= I64Max
    ensures r.Failure? ==> r.error == Parse(if key in scrobbles.attributes then "integer" else missing)
  {
    if key !in scrobbles.attributes then
      Failure(Parse(missing))
    else
      match ParseI64(scrobbles.attributes[key])
      case None => Failure(Parse("integer"))
      case Some(n) => Success(n)
  }

  /**
   * The structural stage of reading a scrobble reply: the body parsed, has a
   * `scrobbles` element, and both counts are present integers.
   */
  function ScrobbleCounts(doc: XmlDoc): (r: Result<Counts, ApiError>)
    ensures r.Failure? ==> r.error.Parse?
    ensures r.Success? <==>
      ScrobblesElement(doc).Some?
      && CountAttribute(ScrobblesElement(doc).value, "accepted", "no acccepted attr").Success?
      && CountAttribute(ScrobblesElement(doc).value, "ignored", "no ignored attr").Success?
    ensures r.Success? ==>
      var attributes := ScrobblesElement(doc).value.attributes;
      r.value == Counts(ParseI64(attributes["accepted"]).value, ParseI64(attributes["ignored"]).value)
    ensures doc.Failure? ==> r == Failure(Parse(doc.error))
    ensures doc.Success? && ScrobblesElement(doc).None? ==> r == Failure(Parse("xml scrobbles key"))
    ensures ScrobblesElement(doc).Some? ==>
      var attributes := ScrobblesElement(doc).value.attributes;
      if "accepted" !in attributes then r == Failure(Parse("no acccepted attr"))
      else if ParseI64(attributes["accepted"]).None? then r == Failure(Parse("integer"))
      else if "ignored" !in attributes then r == Failure(Parse("no ignored attr"))
      else if ParseI64(attributes["ignored"]).None? then r == Failure(Parse("integer"))
      else r.Success?
  {
    match doc
    case Failure(message) => Failure(Parse(message))
    case Success(root) =>
      match GetChild(root, "scrobbles")
      case None => Failure(Parse("xml scrobbles key"))
      case Some(scrobbles) =>
        match CountAttribute(scrobbles, "accepted", "no acccepted attr")
        case Failure(e) => Failure(e)
        case Success(accepted) =>
          match CountAttribute(scrobbles, "ignored", "no ignored attr")
          case Failure(e) => Failure(e)
          case Success(ignored) => Success(Counts(accepted, ignored))
  }

  /** The `scrobble/ignoredMessage` element under `scrobbles`. */
  function IgnoredMessage(scrobbles: Element): (r: Result<Element, ApiError>)
    ensures r.Success? <==> Descend(scrobbles, ["scrobble", "ignoredMessage"]).Some?
    ensures r.Success? ==> r.value == Descend(scrobbles, ["scrobble", "ignoredMessage"]).value
    ensures r.Failure? ==> r.error == Parse(
      if GetChild(scrobbles, "scrobble").None? then "xml tag scrobble" else "xml tag ignoredMessage")
  {
    match GetChild(scrobbles, "scrobble")
    case None => Failure(Parse("xml tag scrobble"))
    case Some(scrobble) =>
      match GetChild(scrobble, "ignoredMessage")
      case None => Failure(Parse("xml tag ignoredMessage"))
      case Some(message) => Success(message)
  }

  /** `format!("{}: {}", code, text)`, the text defaulting to empty. */
  function Reason(message: Element): (r: string)
    requires "code" in message.attributes
    ensures var code := message.attributes["code"];
      |r| >= |code| + 2 && r[..|code|] == code && r[|code|..|code| + 2] == ": "
    ensures message.text.Some? ==> r[|message.attributes["code"]| + 2..] == message.text.value
    ensures message.text.None? ==> |r| == |message.attributes["code"]| + 2
  {
    message.attributes["code"] + ": " + message.text.GetOr("")
  }

  /** The message element of a reply whose counts parsed, when it has one. */
  function MessageOf(doc: XmlDoc): Option<Element>
  {
    match ScrobblesElement(doc)
    case None => None
    case Some(scrobbles) =>
      match IgnoredMessage(scrobbles)
      case Failure(_) => None
      case Success(m) => Some(m)
  }

  /**
   * `parse_scrobble_response`. Reply (1 accepted, 0 ignored) is success and
   * (0, 1) is `Unscrobbled`; both still need `scrobble/ignoredMessage`, and
   * both panic when that element has no `code` attribute.
   */
  function ParseScrobbleResponse(doc: XmlDoc): (r: Run<(), ApiError>)
    // Every structural failure is reported before the counts are compared.
    ensures ScrobbleCounts(doc).Failure? ==> r == Returned(Failure(ScrobbleCounts(doc).error))
    ensures ScrobbleCounts(doc).Success? && ScrobbleCounts(doc).value !in {Counts(1, 0), Counts(0, 1)}
      ==> r == Returned(Failure(Parse("Wrong response structure")))
    ensures r == Returned(Success(())) <==>
      ScrobbleCounts(doc) == Success(Counts(1, 0)) && MessageOf(doc).Some? && "code" in MessageOf(doc).value.attributes
    ensures (r.Returned? && r.result.Failure? && r.result.error.Unscrobbled?) <==>
      ScrobbleCounts(doc) == Success(Counts(0, 1)) && MessageOf(doc).Some? && "code" in MessageOf(doc).value.attributes
    ensures r.Returned? && r.result.Failure? && r.result.error.Unscrobbled? ==>
      r.result.error.reason == Reason(MessageOf(doc).value)
    ensures r.Panicked? <==>
      ScrobbleCounts(doc).Success? && ScrobbleCounts(doc).value in {Counts(1, 0), Counts(0, 1)}
      && MessageOf(doc).Some? && "code" !in MessageOf(doc).value.attributes
    ensures ScrobbleCounts(doc).Success? && ScrobbleCounts(doc).value in {Counts(1, 0), Counts(0, 1)}
      && IgnoredMessage(ScrobblesElement(doc).value).Failure?
      ==> r == Returned(Failure(IgnoredMessage(ScrobblesElement(doc).value).error))
    ensures r.Returned? && r.result.Failure? ==> r.result.error.Parse? || r.result.error.Unscrobbled?
  {
    match doc
    case Failure(message) => Returned(Failure(Parse(message)))
    case Success(root) =>
      match GetChild(root, "scrobbles")
      case None => Returned(Failure(Parse("xml scrobbles key")))
      case Some(scrobbles) =>
        match CountAttribute(scrobbles, "accepted", "no acccepted attr")
        case Failure(e) => Returned(Failure(e))
        case Success(accepted) =>
          match CountAttribute(scrobbles, "ignored", "no ignored attr")
          case Failure(e) => Returned(Failure(e))
          case Success(ignored) =>
            if accepted == 1 && ignored == 0 then
              match IgnoredMessage(scrobbles)
              case Failure(e) => Returned(Failure(e))
              case Success(message) =>
                if "code" !in message.attributes then Panicked
                else Returned(Success(()))
            else if accepted == 0 && ignored == 1 then
              match IgnoredMessage(scrobbles)
              case Failure(e) => Returned(Failure(e))
              case Success(message) =>
                if "code" !in message.attributes then Panicked
                else Returned(Failure(Unscrobbled(Reason(message))))
            else
              Returned(Failure(Parse("Wrong response structure")))
  }

  /**
   * How `scrobble` reads the reply to its form. A transport failure or a
   * failure status ends the call before any XML is read.
   */
  function ScrobbleReplyOutcome(reply: HttpReply<XmlDoc>): (r: Run<(), ApiError>)
    ensures reply.Received? && reply.success ==> r == ParseScrobbleResponse(reply.body)
    ensures (r.Returned? && r.result.Failure? && r.result.error.Generic?) <==> !(reply.Received? && reply.success)
    ensures reply.Unsent? ==> r == Returned(Failure(Generic(reply.error)))
    ensures reply.Received? && !reply.success ==> r == Returned(Failure(Generic(UnsuccessfulRequest)))
  {
    match ReplyBody(reply)
    case Failure(e) => Returned(Failure(e))
    case Success(doc) => ParseScrobbleResponse(doc)
  }

  /** `scrobble`: post the signed scrobble form and classify the reply. */
  function Scrobble(config: AuthConfig, artist: string, track: string, when: int, order: seq<string>, md5: Md5, server: Params -> HttpReply<XmlDoc>): (r: Run<(), ApiError>)
    requires IsEnumeration(order, ScrobbleKeySet)
    ensures r.Returned? && r.result.Failure? ==> !r.result.error.Json?
    ensures var reply := server(ScrobbleForm(config, artist, track, when, order, md5));
      reply.Received? && reply.success ==> r == ParseScrobbleResponse(reply.body)
    ensures var reply := server(ScrobbleForm(config, artist, track, when, order, md5));
      reply.Received? && !reply.success ==> r == Returned(Failure(Generic(UnsuccessfulRequest)))
    ensures var reply := server(ScrobbleForm(config, artist, track, when, order, md5));
      reply.Unsent? ==> r == Returned(Failure(Generic(reply.error)))
  {
    ScrobbleReplyOutcome(server(ScrobbleForm(config, artist, track, when, order, md5)))
  }

  /** The session handshake does not depend on the order the hash map yields its keys in. */
  lemma GetSessionTokenOrderIndependent(config: AuthConfig, requestToken: string, order1: seq<string>, order2: seq<string>,
                                        md5: Md5, server: Params -> HttpReply<XmlDoc>)
    requires IsEnumeration(order1, SessionKeySet) && IsEnumeration(order2, SessionKeySet)
    ensures GetSessionToken(config, requestToken, order1, md5, server)
         == GetSessionToken(config, requestToken, order2, md5, server)
  {
    SignedFormOrderIndependent(SessionParams(config.apiKey, requestToken), order1, order2, config.secretKey, md5);
  }

  /** A scrobble does not depend on the order the hash map yields its keys in. */
  lemma ScrobbleOrderIndependent(config: AuthConfig, artist: string, track: string, when: int,
                                 order1: seq<string>, order2: seq<string>, md5: Md5, server: Params -> HttpReply<XmlDoc>)
    requires IsEnumeration(order1, ScrobbleKeySet) && IsEnumeration(order2, ScrobbleKeySet)
    ensures Scrobble(config, artist, track, when, order1, md5, server)
         == Scrobble(config, artist, track, when, order2, md5, server)
  {
    SignedFormOrderIndependent(ScrobbleParams(config, artist, track, when), order1, order2, config.secretKey, md5);
  }

  // ---------------------------------------------------------------------
  // Replies as the service writes them, and how each is read

  /** `<lfm><session><key>k</key></session></lfm>` */
  function SessionReply(key: string): Element
  {
    Element("lfm", map["status" := "ok"], [
      Element("session", map[], [Element("key", map[], [], Some(key))], None)], None)
  }

  /** A session reply yields exactly the key it carries. */
  lemma SessionReplyRoundTrip(key: string)
    ensures SessionKeyFromXml(Success(SessionReply(key))) == Success(key)
  {
  }

  /** A token reply yields its token, whatever other fields it has. */
  lemma TokenReplyRoundTrip(fields: map<string, JsonValue.Value>, token: string)
    ensures GetRequestToken(Received(true, Some(JsonValue.Object(fields["token" := JsonValue.String(token)]))))
      == Returned(Success(token))
  {
  }

  /** `<ignoredMessage code="..">text</ignoredMessage>`, with the code and text optional. */
  function IgnoredMessageElement(code: Option<string>, text: Option<string>): Element
  {
    Element("ignoredMessage", if code.Some? then map["code" := code.value] else map[], [], text)
  }

  /** `<lfm><scrobbles accepted=".." ignored=".."><scrobble>message</scrobble></scrobbles></lfm>` */
  function ScrobblesReply(accepted: string, ignored: string, message: Option<Element>): Element
  {
    var scrobble := Element("scrobble", map[], if message.Some? then [message.value] else [], None);
    Element("lfm", map["status" := "ok"], [
      Element("scrobbles", map["accepted" := accepted, "ignored" := ignored], [scrobble], None)], None)
  }

  /** The `scrobbles` element of a sample reply and its message, as the reading code finds them. */
  lemma ScrobblesReplyParts(accepted: string, ignored: string, message: Option<Element>)
    ensures ScrobblesElement(Success(ScrobblesReply(accepted, ignored, message))).Some?
    ensures var e := ScrobblesElement(Success(ScrobblesReply(accepted, ignored, message))).value;
      && e.attributes == map["accepted" := accepted, "ignored" := ignored]
      && IgnoredMessage(e) == (if message.Some? && message.value.name == "ignoredMessage"
                               then Success(message.value) else Failure(Parse("xml tag ignoredMessage")))
  {
  }

  /** One accepted and none ignored, with a coded message: success. */
  lemma AcceptedReply(code: string, text: Option<string>)
    ensures ParseScrobbleResponse(Success(ScrobblesReply("1", "0", Some(IgnoredMessageElement(Some(code), text)))))
      == Returned(Success(()))
  {
    ScrobblesReplyParts("1", "0", Some(IgnoredMessageElement(Some(code), text)));
  }

  /** None accepted and one ignored: `Unscrobbled("code: text")`, the text defaulting to empty. */
  lemma IgnoredReply(code: string, text: Option<string>)
    ensures ParseScrobbleResponse(Success(ScrobblesReply("0", "1", Some(IgnoredMessageElement(Some(code), text)))))
      == Returned(Failure(Unscrobbled(code + ": " + text.GetOr(""))))
  {
    ScrobblesReplyParts("0", "1", Some(IgnoredMessageElement(Some(code), text)));
  }

  /** Neither accepted nor ignored: the structure is wrong, whatever the message. */
  lemma NeitherReply(message: Option<Element>)
    ensures ParseScrobbleResponse(Success(ScrobblesReply("0", "0", message)))
      == Returned(Failure(Parse("Wrong response structure")))
  {
    ScrobblesReplyParts("0", "0", message);
  }

  /** An accepted reply without `ignoredMessage` is a parse error, not success. */
  lemma AcceptedReplyWithoutMessage()
    ensures ParseScrobbleResponse(Success(ScrobblesReply("1", "0", None)))
      == Returned(Failure(Parse("xml tag ignoredMessage")))
  {
    ScrobblesReplyParts("1", "0", None);
  }

  /** An accepted reply whose message has no `code` panics. */
  lemma AcceptedReplyWithoutCode(text: Option<string>)
    ensures ParseScrobbleResponse(Success(ScrobblesReply("1", "0", Some(IgnoredMessageElement(None, text)))))
      == Panicked
  {
    ScrobblesReplyParts("1", "0", Some(IgnoredMessageElement(None, text)));
  }

  /** A session reply with a success status hands over its key. */
  lemma SessionHandshakeReply(key: string)
    ensures SessionReplyOutcome(Received(true, Success(SessionReply(key)))) == Success(key)
  {
    SessionReplyRoundTrip(key);
  }
}
