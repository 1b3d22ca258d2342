# offline-scrobbler: the Last.fm protocol layer in Dafny

This project models the protocol core of offline-scrobbler, a command-line tool
that submits "scrobbles" (play records) to Last.fm. The model covers:

- **Request signing** (`compute_signature`). The parameter names are sorted
  ascending. Each name is written followed by its value, and the shared secret
  is appended. The MD5 digest of the UTF-8 bytes of that string, in lowercase
  hex, becomes `api_sig`.
- **The two signed forms**: `auth.getSession` and `track.scrobble`. In each,
  `api_sig` is computed first and then added to the form.
- **Reading the replies**:
  - the request token from the JSON reply of `auth.gettoken`;
  - the session key from the XML reply of `auth.getSession`;
  - the accepted / ignored / malformed decision on the XML reply of
    `track.scrobble`.
- **The single-track outcome policy** (`scrobble_track`). A track the service
  declines to record (`Unscrobbled`) counts as success. Every other error is
  passed on.

Everything is a pure function over data that is already decoded. The modules
follow the program's layers:

| module | file | what it holds |
|---|---|---|
| `Wrappers` | wrappers.dfy | `Option`, `Result` |
| `Lexicographic` | lexicographic.dfy | Rust's `Ord` on `&str`, proved a total order |
| `KeySort` | keysort.dfy | insertion sort of parameter names; uniqueness of the sorted arrangement |
| `Decimal` | decimal.dfy | `i64::to_string` and `str::parse::<i64>` |
| `Bytes` | bytes.dfy | UTF-8 encoding (`as_bytes`) with its decoder; lowercase hex (`{:x}`) with its reader |
| `Signature` | signature.dfy | pre-image, `compute_signature`, the form with `api_sig`, what the service verifies |
| `Xml`, `JsonValue` | xml.dfy, json.dfy | decoded XML elements (`get_child`) and JSON values |
| `LastfmApi` | lastfmapi.dfy | `ApiError`, the reply of `auth.gettoken`, the signed `auth.getSession` and `track.scrobble` calls, reply classification, sample replies |
| `Scrobbler` | scrobbler.dfy | `scrobble_track` |

The model turns the program's outside dependencies into parameters:

- **MD5** is a parameter `md5: seq<byte> -> Digest`, and a `Digest` is 16 bytes
  (section 3.5 of RFC 1321).
- **Hash-map key order.** `HashMap::keys()` yields the keys in an unspecified
  order. The model takes that order as a parameter `order`.
  `IsEnumeration(order, keys)` says it lists every key exactly once. The
  contracts show that nothing depends on which order is used.
- **HTTP.** One exchange is a function `server` from the form that is sent to
  an `HttpReply`. The reply is either `Unsent(message)` or
  `Received(success, body)`.
- **XML and JSON bodies** arrive already parsed. An XML body is
  `Result<Element, string>`, where the failure case carries the parser's
  message. A JSON body is `Option<Value>`.
- **The clock reading** (`OffsetDateTime::now_utc`) is an `int` of unix
  seconds.
- **Panics.** `unwrap()` of an absent value is the explicit outcome `Panicked`
  of `Run<T, E>`.

Details of the reply handling that the model follows:

- The `scrobbles` element is the first `scrobbles` child of the root element
  (`<lfm>`), not the root element itself (src/lastfmapi.rs:160-162).
- An accepted reply (1 accepted, 0 ignored) also needs
  `scrobble/ignoredMessage`, and that element needs a `code` attribute. Without
  the element the reply is a `Parse` error. Without the attribute the call
  panics (src/lastfmapi.rs:178-183).
- An ignored reply gives the single error `Unscrobbled("code: text")`
  (src/lastfmapi.rs:190-202). The error kinds are `Generic`, `Json`, `Parse`
  and `Unscrobbled` (src/lastfmapi.rs:17-27).
- A request-token reply that is not JSON panics (`response.json().unwrap()`).
  It does not produce an error value.

Parameter names are compared one Unicode scalar value at a time. For UTF-8
strings this order is the same as the byte-wise order Rust uses. The model
relies on that fact but does not prove it.

## Model

| member | source | states |
|---|---|---|
| Lexicographic.BelowTotal | src/lastfmapi.rs:71 | Any two parameter names are comparable under the order `keys.sort()` uses |
| Lexicographic.BelowAntisymmetric | src/lastfmapi.rs:71 | Two names that each sort at or before the other are the same name |
| Lexicographic.BelowTransitive | src/lastfmapi.rs:71 | The name order is transitive |
| KeySort.Sort | src/lastfmapi.rs:70-71 | The sorted keys are in ascending order and are a permutation of the collected keys |
| KeySort.SortedUnique | src/lastfmapi.rs:70-71 | Two ascending arrangements of the same multiset of keys are equal, so the sort result is unique |
| KeySort.SortEnumeration | src/lastfmapi.rs:70-71 | Sorting the keys of a map lists every key exactly once, strictly ascending |
| KeySort.SortIsAscending | src/lastfmapi.rs:70-71 | Sorting gives the same sequence whatever order the hash map yielded the keys in |
| Signature.Pairs | src/lastfmapi.rs:72-75 | No names give empty text, and one name gives the name immediately followed by its value; with `PairsAppend` this fixes the text of any name list |
| Signature.PairsAppend | src/lastfmapi.rs:72-75 | The name-value text of a key list is the text of its first part followed by the text of the rest |
| Signature.PreImage | src/lastfmapi.rs:69-76 | The pre-image is `key ++ value` over the keys in ascending order, then the secret as the final suffix; it does not depend on hash-map order |
| Signature.ComputeSignature | src/lastfmapi.rs:68-81 | The signature is 32 lowercase hex digits that read back as the MD5 digest of the UTF-8 bytes of the pre-image |
| Signature.SignatureOrderIndependent | src/lastfmapi.rs:68-81 | Any two hash-map orders of the same parameters give the same signature |
| Signature.SignedFormOrderIndependent | src/lastfmapi.rs:68-81 | Any two hash-map orders of the same parameters give the same signed form |
| Signature.SignedForm | src/lastfmapi.rs:90-91 | The sent form is the signed set plus exactly one key, `api_sig`, holding the signature of the set without it; the other values are unchanged |
| Signature.SignedFormVerifies | src/lastfmapi.rs:136-137 | Removing `api_sig` from a signed form gives back exactly the signed parameters, and re-signing them gives `api_sig`: the signature never covers itself |
| Bytes.EncodeChar | src/lastfmapi.rs:78 | Each character becomes the shortest UTF-8 form: 1 byte below U+0080, 2 below U+0800, 3 below U+10000, else 4; a lead byte that announces the length, then continuation bytes; ASCII maps to itself |
| Bytes.DecodeEncodeChar | src/lastfmapi.rs:78 | Decoding a character's UTF-8 bytes gives the character back |
| Bytes.Utf8 | src/lastfmapi.rs:78 | `as_bytes` of a string is at least as long as the string and at most four times as long, and an ASCII string is its own byte string |
| Bytes.Utf8Char | src/lastfmapi.rs:78 | A one-character string encodes exactly as that character; with `Utf8Append` this fixes the bytes of every string |
| Bytes.Utf8Append | src/lastfmapi.rs:78 | The UTF-8 bytes of a concatenation are the concatenation of the bytes |
| Bytes.Utf8RoundTrip | src/lastfmapi.rs:78 | UTF-8 decoding inverts `as_bytes`, so distinct pre-images hash distinct byte strings |
| Bytes.Hex | src/lastfmapi.rs:78 | `{:x}` writes two lowercase hex digits per digest byte |
| Bytes.HexRoundTrip | src/lastfmapi.rs:78 | Reading the hex text back gives the digest bytes |
| Decimal.NatDigits | src/lastfmapi.rs:133 | The digits of a non-negative number spell its value, with no leading zero |
| Decimal.FormatInt | src/lastfmapi.rs:133 | `to_string` of the timestamp starts with `-` exactly for negative values, followed by the digits of the magnitude with no leading zero |
| Decimal.ParseI64 | src/lastfmapi.rs:164-175 | A count parses exactly when the text is an optional sign followed by one or more digits and its value fits in an i64, and then the result is that value |
| Decimal.FormatParseRoundTrip | src/lastfmapi.rs:133 | Parsing reads back every i64 that `to_string` writes |
| Decimal.LeadingZeroIgnored | src/lastfmapi.rs:168 | Prefixing an unsigned count with `0` changes neither whether it parses nor its value |
| Decimal.PlusSignIgnored | src/lastfmapi.rs:168 | Prefixing an unsigned count with `+` changes neither whether it parses nor its value |
| Xml.FirstNamed | src/lastfmapi.rs:160-162 | Finds the position of the first element with the name, and reports absence exactly when no element has it |
| Xml.GetChild | src/lastfmapi.rs:110-113 | `get_child` gives the first child with the requested name (no earlier child has it), and gives nothing exactly when no child has that name |
| LastfmApi.TokenFromJson | src/lastfmapi.rs:57-63 | The token is read exactly when the value is an object with a string `token` field; every other value gives `Json` |
| LastfmApi.GetRequestToken | src/lastfmapi.rs:38-66 | `Generic` arises exactly from a transport failure (with its message) or a failure status (`Unsuccessfull request`); a body that is not JSON panics; otherwise the token is read as above, so `Json` is the only other error |
| LastfmApi.TokenReplyRoundTrip | src/lastfmapi.rs:57-63 | A reply object with a string `token` yields that token, whatever other fields it has |
| LastfmApi.SessionParams | src/lastfmapi.rs:85-89 | Session parameters are exactly `api_key` = the API key, `method` = `auth.getSession`, `token` = the request token, without `api_sig` |
| LastfmApi.SessionKeysAscending | src/lastfmapi.rs:85-89 | The session parameter names sort as api_key, method, token |
| LastfmApi.SessionPreImage | src/lastfmapi.rs:85-90 | The session pre-image is `api_key<key>methodauth.getSessiontoken<token><secret>` for every hash-map order |
| LastfmApi.SessionForm | src/lastfmapi.rs:85-91 | The posted form is the session parameters plus `api_sig`, which reads back as MD5 of that exact pre-image |
| LastfmApi.SessionKeyFromXml | src/lastfmapi.rs:108-116 | The result is the text of `session/key`; an unparsable body, a missing `session`, a missing `key` and missing text each give their own `Parse` error |
| LastfmApi.SessionReplyRoundTrip | src/lastfmapi.rs:108-116 | A `<session><key>k</key></session>` reply yields `k` |
| LastfmApi.ReplyBody | src/lastfmapi.rs:94-106 | The body is handed on exactly for a success status; a transport failure becomes `Generic` with its message, and a failure status `Generic("Unsuccessfull request")` |
| LastfmApi.SessionReplyOutcome | src/lastfmapi.rs:93-117 | A success status gives exactly what `SessionKeyFromXml` reads from the body (the key, or its specific `Parse` error). A transport failure gives `Generic` with its message, and a failure status `Generic("Unsuccessfull request")` |
| LastfmApi.GetSessionToken | src/lastfmapi.rs:83-118 | The server's reply to the signed session form decides the result: on a success status, what `SessionKeyFromXml` reads from the body; otherwise `Generic` with the transport message or `Unsuccessfull request` |
| LastfmApi.GetSessionTokenOrderIndependent | src/lastfmapi.rs:85-91 | The handshake's result does not depend on the hash-map order |
| LastfmApi.SessionHandshakeReply | src/lastfmapi.rs:100-117 | A session reply with a success status hands over its key |
| LastfmApi.ScrobbleParams | src/lastfmapi.rs:127-135 | Scrobble parameters are exactly `api_key, method, artist, track, timestamp, sk`; the timestamp text parses back to the unix seconds |
| LastfmApi.ScrobbleKeysAscending | src/lastfmapi.rs:128-135 | The scrobble parameter names sort as api_key, artist, method, sk, timestamp, track |
| LastfmApi.ScrobblePairs | src/lastfmapi.rs:128-135 | The scrobble parameters written out in ascending key order |
| LastfmApi.ScrobblePreImage | src/lastfmapi.rs:127-136 | The scrobble pre-image is the six name-value pairs in ascending order, then the secret, for every hash-map order |
| LastfmApi.ScrobbleForm | src/lastfmapi.rs:127-137 | The posted form is the scrobble parameters plus `api_sig`, which reads back as MD5 of that exact pre-image |
| LastfmApi.CountAttribute | src/lastfmapi.rs:164-175 | A count is read exactly when the attribute is present and parses as an i64, and is then the parsed value; a missing attribute and a non-integer give different `Parse` messages |
| LastfmApi.ScrobbleCounts | src/lastfmapi.rs:158-175 | The structural stage succeeds exactly when a `scrobbles` child has both counts as integers, and yields the parsed `accepted` and `ignored` values in that order. Failures are checked in source order: unparsable body (parser message), no `scrobbles`, missing or non-integer `accepted`, missing or non-integer `ignored` |
| LastfmApi.IgnoredMessage | src/lastfmapi.rs:178-182 | `scrobble/ignoredMessage` is found exactly when the path exists; a missing `scrobble` and a missing `ignoredMessage` give different errors |
| LastfmApi.Reason | src/lastfmapi.rs:197-201 | The reason reads as the `code` attribute, then `: `, then the element's text, or nothing when it has no text |
| LastfmApi.ParseScrobbleResponse | src/lastfmapi.rs:156-207 | Structural errors come before any count comparison. (1,0) gives Ok, and (0,1) gives `Unscrobbled("code: text")`; both need the message with a code, and a missing `scrobble` or `ignoredMessage` gives that lookup's own `Parse` error. Any other pair gives `Parse("Wrong response structure")`. A message without a code panics. Neither `Generic` nor `Json` occurs |
| LastfmApi.ScrobbleReplyOutcome | src/lastfmapi.rs:140-153 | `Generic` arises exactly from a transport or status failure, which ends the call before the XML is read; a success reply is classified by `ParseScrobbleResponse` |
| LastfmApi.Scrobble | src/lastfmapi.rs:120-154 | The server's reply to the signed scrobble form decides the result: on a success status, exactly `ParseScrobbleResponse` of the body; otherwise `Generic` with the transport message or `Unsuccessfull request`. A `Json` error never occurs |
| LastfmApi.ScrobbleOrderIndependent | src/lastfmapi.rs:127-137 | A scrobble's result does not depend on the hash-map order |
| LastfmApi.AcceptedReply | src/lastfmapi.rs:176-189 | One accepted, none ignored, with a coded message: Ok |
| LastfmApi.IgnoredReply | src/lastfmapi.rs:190-202 | None accepted, one ignored: `Unscrobbled("code: text")` with the text defaulting to empty |
| LastfmApi.NeitherReply | src/lastfmapi.rs:203-206 | Zero accepted and zero ignored: `Parse("Wrong response structure")` |
| LastfmApi.AcceptedReplyWithoutMessage | src/lastfmapi.rs:178-182 | An accepted reply without `ignoredMessage` is a `Parse` error, not Ok |
| LastfmApi.AcceptedReplyWithoutCode | src/lastfmapi.rs:183 | An accepted reply whose message has no `code` panics |
| Scrobbler.TrackOutcome | src/scrobbler.rs:11-18 | Ok stays Ok, and `Unscrobbled` becomes Ok. Every other error propagates unchanged as an `Api` error. A panic stays a panic |
| Scrobbler.ScrobbleTrack | src/scrobbler.rs:7-19 | A credential-loading failure is the error, and a `Config` error arises only from it. Otherwise the scrobble reply decides: a success status gives the policy applied to `ParseScrobbleResponse` of the body, a failure status `Api(Generic("Unsuccessfull request"))`, a transport failure `Api(Generic(message))`. An `Unscrobbled` outcome never surfaces as the command's error |
| Scrobbler.ScrobbleTrackOrderIndependent | src/scrobbler.rs:7-19 | The command's outcome does not depend on the hash-map order |
| Scrobbler.DryRunIgnored | src/scrobbler.rs:7-11 | The dry-run flag does not change the outcome |
| Scrobbler.IgnoredTrackSucceeds | src/scrobbler.rs:13-16 | A success reply reporting the single track as ignored still ends the command successfully |
| Scrobbler.FailedStatusPropagates | src/scrobbler.rs:17 | A failure status on the scrobble reply becomes the command's error, `Generic("Unsuccessfull request")` |

## Left out

- HTTP transport (`reqwest::blocking::Client`, `send`, status codes, reading the body text). It is I/O. The exchange is the `server` parameter, and a status is reduced to its success flag.
- Textual XML parsing (`Element::parse`) and JSON parsing (`response.json()`). They are foreign libraries, and the model starts from their results. The XML element keeps `get_text`'s result as one optional string, not the individual text nodes.
- JSON numbers are kept as integers, without floating point. The client never inspects a number.
- MD5 internals (`md5::compute`). It is a foreign crate, and the model treats it as an opaque function parameter.
- A proof that comparing Unicode scalar values orders UTF-8 strings as Rust's byte-wise comparison does. This is a standard property of UTF-8, and the model assumes it.
- `when.unix_timestamp()` and the clock (`OffsetDateTime::now_utc`, src/utils.rs). The clock is outside the core and is replaced by an `int` of unix seconds. The timestamp round trip is stated only for the i64 range.
- Logging (`info!`, `debug!`, `warn!`, `error!`). It has no effect on results. The reason string the accepted branch builds only for logging is not computed.
- src/auth.rs. It covers config-file paths, TOML (de)serialisation, file reads and writes, and the interactive wait on stdin. That is I/O, and the file also uses a `LastfmApiBuilder` that src/lastfmapi.rs does not define. Loading the credentials is an input `Result<AuthConfig, string>`.
- The `auth.gettoken` request itself (src/lastfmapi.rs:39-48): an unsigned POST with `method`, `api_key` and `format=json` in the URL and an empty body. Building a URL string is not modelled; only the reply is (`GetRequestToken`).
- src/main.rs. Command-line parsing and logger setup are plumbing.
- Sort stability and Rust's sort algorithm. Parameter names in a map are distinct, so every correct sort gives the same result (KeySort.SortedUnique). Insertion sort stands in for it.
