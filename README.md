# CDC server model

This project models the Common Domain Cookie (CDC) server of the
SimpleSAMLphp `cdc` module (`src/Server.php`) in Dafny. A service on one
domain asks the CDC server of a common domain to `append` an identity
provider to the `_saml_idp` cookie, to `delete` that cookie, or to `read`
it. Requests and responses travel through the browser as a base64-encoded
JSON message plus a `Signature` parameter. The signature is SHA-1 over the
domain's shared key, the encoded message and the key again. Every message
is stamped with the time it was sent. A message is accepted only within 60
seconds of that stamp, and only when it names a domain.

The modules follow the code:

- `Text` (`text.dfy`): PHP strings as byte sequences, with `explode`,
  `implode`, the two-piece `explode` used when the cookie is cut, and strict
  `array_search`.
- `Base64` (`base64.dfy`): padded base64. `Base64.Decode` accepts exactly
  the canonical encodings. Applied to the base64 check the code uses, this
  means: a text is valid when it is the encoding of a non-empty string.
- `Values` (`values.dfy`): a decoded JSON message as a map of values, with
  PHP's `isset`, `(string)` and `(int)`.
- `IdentityList` (`identity_list.dfy`): what `handleAppend` does to the list.
  It removes the first entry equal to the entity and appends the entity at
  the end.
- `CookieList` (`cookie_list.dfy`): the cookie value.
  - Writing encodes every entry and joins them with spaces. It then drops
    the oldest tokens while the text is over 4000 bytes and more than one
    token remains.
  - Reading splits on spaces. Each token must be valid base64 of a valid URI.
  - Round trips are proved: reading what was written gives back the newest
    entries in order.
- `Cdc` (`server.dfy`): the `Server` class.
  - Its fields are set only by the constructor, so `Server` is a value, and
    `NewServer` is the constructor with its two failures.
  - `Get`, `Validate`, `Send`, `GetResponse`, `ProcessRequest` and
    `HandleRequest` are functions.
  - The request parameters, the cookie and the clock are parameters. What
    the code sends to the browser is returned as a value: a cookie header,
    then a redirect or a POST.
  - `getCDC`, `setCDC` and `handleAppend` change local arrays in place and
    loop, so they are methods. Each is proved to compute the function the
    dispatch uses (`CookieList.Decode`, `CookieList.Encode`,
    `Cdc.Server.AppendOutcome`).
- `CdcProperties` (`properties.dfy`): properties that span several
  operations.
  - What each op answers.
  - Sealed messages pass the receiver's checks.
  - Another key is rejected.
  - The whole client–server round trip is accepted.
  - A read after an append reports the entity as newest.

Where the code and the module's own description of it disagree, the model
follows the code:

- A cookie token that is not valid base64, or that is not a valid URI, makes
  `getCDC` fail with the assertion's error. The code does not return an
  empty list in that case. The `base64_decode(...) === false` branch that
  would return an empty list cannot be reached once the base64 assertion
  has passed.
- The `json_decode(...) === false` test fires only for the JSON text
  `false`, which decodes to `false`; that message is refused with the
  json-decoding error (`BadJson`). Text that is not JSON decodes to null, and
  JSON that is not an object has no timestamp field, so both are refused as
  "missing timestamp".
- An append removes only the first earlier entry equal to the entity. A
  list that already held the entity twice keeps one of the two
  (`IdentityList.RemovesFirstOnly`).
- A cookie that is present with an empty value is a single empty token. It
  fails the base64 check, so it reads as an error, not as an empty list
  (`CookieList.EmptyListUnreadable`). Writing the empty value does not
  produce such a cookie: the browser deletes a cookie set to the empty
  string, and the next read sees no cookie.

## Model

| member | source | states |
|---|---|---|
| Text.Split | src/Server.php:381 | `explode` on spaces gives at least one piece |
| Text.SplitPieces | src/Server.php:381 | no piece of `explode` holds a space, and joining the pieces with spaces gives the text back |
| Text.Join | src/Server.php:409 | `implode` with a space: one token is itself; tokens without spaces give a text with a space exactly when there is more than one token |
| Text.FirstIndex | src/Server.php:205-208 | strict `array_search`: none exactly when the value is absent; otherwise its first position |
| Text.SplitOnce | src/Server.php:413-421 | `explode(' ', s, 2)`: one piece exactly when there is no space; otherwise the text before the first space, and the rest |
| Text.SplitJoin | src/Server.php:381 | `explode` on spaces gives back tokens that have no spaces and were joined with spaces |
| Text.SplitOnceJoin | src/Server.php:413-420 | cutting joined tokens at the first space leaves the join of all tokens but the first |
| Text.JoinDropIsSuffix | src/Server.php:409-421 | joining the newest tokens gives a suffix of the full joined text |
| Base64.Encode | src/Server.php:337 | the encoding is empty exactly when the string is |
| Base64.EncodeLength | src/Server.php:337 | the encoding of `n` bytes has `4 * ceil(n / 3)` characters, a multiple of four |
| Base64.ValidShape | src/Server.php:268 | a text that passes the base64 check is non-empty, a multiple of four characters long and holds no space |
| Base64.IsValidIff | src/Server.php:383 | a text passes the base64 check exactly when it is the encoding of some non-empty string |
| Base64.DecodeEncode | src/Server.php:384 | decoding the encoding of any string gives that string back |
| Base64.EncodeDecode | src/Server.php:268-270 | text that decodes is the encoding of what it decodes to |
| Base64.DecodeIff | src/Server.php:383-384 | decoding gives `b` exactly when the text is the encoding of `b` |
| Base64.EncodeHasNoSpace | src/Server.php:406-409 | encoded entries contain no space, so joining them with spaces can be undone |
| Base64.EncodeIsValid | src/Server.php:337 | the encoding of a non-empty string passes the base64 check |
| Values.ToStr | src/Server.php:201 | `(string)` keeps a string as it is; the text of an integer reads back under `(int)` as that integer |
| IdentityList.MoveToEnd | src/Server.php:205-209 | the list is never empty afterwards and the entity is its last entry |
| IdentityList.MoveToEndCounts | src/Server.php:205-209 | the entries are those of the list with one copy of the entity removed when present, plus the entity: nothing lost, nothing invented |
| IdentityList.WithoutMembers | src/Server.php:205-209 | removing an entity keeps every other entry and only those |
| IdentityList.MoveToEndKeepsOrder | src/Server.php:205-209 | on a list without repeats, an append yields the other entries in their order, then the entity |
| IdentityList.WithoutNoDuplicates | src/Server.php:205-207 | removing an entity from a list without repeats leaves a list without repeats |
| IdentityList.MoveToEndNoDuplicates | src/Server.php:205-209 | an append keeps a list free of repeats; the entity is last and occurs once |
| IdentityList.MoveToEndIdempotent | src/Server.php:205-209 | appending the same entity twice is the same as appending it once |
| IdentityList.RemovesFirstOnly | src/Server.php:205-207 | only the first equal entry is removed: appending `e` to `[e, e]` leaves `[e, e]` |
| IdentityList.AppendSequence | src/Server.php:205-209 | appending A, then B, then A to an empty list gives `[B, A]` |
| CookieList.Truncate | src/Server.php:411-421 | cutting keeps at least one token of a non-empty list; the result fits in 4000 bytes or is a single token |
| CookieList.TruncateSuffix | src/Server.php:411-421 | cutting keeps the newest tokens, in order |
| CookieList.TruncateMinimal | src/Server.php:411-421 | every token dropped had to go: each longer suffix is over 4000 bytes |
| CookieList.Encode | src/Server.php:403-421 | the value written fits in 4000 bytes or is a single token without a space |
| CookieList.DecodeTokens | src/Server.php:382-391 | a successful read gives one entry per token; a failure is bad base64 or a bad URI |
| CookieList.DecodeTokensEncodes | src/Server.php:382-391 | the entries of a successful read encode back to exactly the tokens read |
| CookieList.DecodeTokensStep | src/Server.php:382-391 | reading one more token keeps the entries read so far and adds that token's entry, or fails |
| CookieList.DecodeTokensPointwise | src/Server.php:382-391 | tokens that each pass both checks read as their entries, in order |
| CookieList.DecodeTokensFirstError | src/Server.php:382-391 | when every earlier token reads, the first token that fails decides the error of the whole cookie |
| CookieList.Decode | src/Server.php:373-394 | no cookie reads as the empty list; a cookie read successfully gives a non-empty list; a failure is bad base64 or a bad URI |
| CookieList.DecodeJoins | src/Server.php:373-394 | the entries read from a cookie, encoded and joined with spaces, are the cookie |
| CookieList.DecodeTokensPrefixError | src/Server.php:382-391 | the first bad token decides the error, whatever follows it |
| CookieList.DecodeTokensStorable | src/Server.php:382-391 | a read returns one entry per token; each is non-empty and a valid URI |
| CookieList.DecodeStorable | src/Server.php:373-394 | every entry read from a cookie is non-empty and a valid URI |
| CookieList.DecodeEncodedTokens | src/Server.php:382-391 | reading the encoded tokens of a storable list gives the list back |
| CookieList.EncodeDropsOldest | src/Server.php:403-421 | the value written is the encoding of the newest entries; the newest entry is never dropped |
| CookieList.EncodeBounded | src/Server.php:403-421 | the value written is a suffix of the full encoding; it has at most 4000 bytes or is one token; no fewer entries could be dropped |
| CookieList.EmptyListUnreadable | src/Server.php:375-391 | an empty list is written as an empty value, which reading rejects as bad base64 |
| CookieList.RoundTrip | src/Server.php:373-421 | reading back what was written for a storable non-empty list gives its newest entries, in order |
| CookieList.RoundTripWhenFits | src/Server.php:373-421 | when the full encoding fits in 4000 bytes, reading back gives the whole list |
| Cdc.NewServer | src/Server.php:60-79 | unknown domain and the example key are the two failures; otherwise the configured server URL, key and lifetime (default 0) |
| Cdc.Get | src/Server.php:262-297 | absent means no message; otherwise the checks run in order: base64; the JSON text `false` is the json-decoding error; no timestamp (also non-object JSON); expired; from the future; no domain. An accepted message is fresh and names a domain |
| Cdc.Server.Validate | src/Server.php:308-323 | succeeds exactly when the parameter and a signature are present and the signature equals SHA-1 of key, text, key; otherwise the matching error |
| Cdc.Server.Seal | src/Server.php:336-344 | exactly the message parameter and `Signature`; the message decodes back to the JSON text, and the signature is the one computed for it |
| Cdc.Server.Send | src/Server.php:333-353 | the message stamped with the time, sealed under the parameter with its signature; a redirect when the URL is under 2048 bytes, otherwise a POST |
| Cdc.Server.SendRequest | src/Server.php:87-94 | `return` and `op` are required; the request goes to our server, with our domain and a time stamp |
| Cdc.Server.ClientRequest | src/Client.php:60-65 | the client's request carries op, return URL, our domain and the time, and goes to our server |
| Cdc.Server.GetResponse | src/Server.php:103-117 | none exactly when the response parameter is absent; errors from reading propagate; another domain is refused before the signature is checked; for our domain the signature check's error is returned, and otherwise the message read; an accepted response is ours and validly signed |
| Cdc.ProcessRequest | src/Server.php:124-136 | a missing request is an error; errors from reading propagate; a handled request names a configured domain whose key is not the example key and signs the request under that key; the response names the same domain |
| Cdc.Server.HandleRequest | src/Server.php:145-186 | `op`, then `return`, must be set; the response goes to the return URL and echoes op, id and our domain, with a time stamp and a status |
| Cdc.Server.Operate | src/Server.php:159-171 | every handled op yields a status and none of the fields the response adds |
| Cdc.Server.Respond | src/Server.php:173-183 | the result with op, our domain and (when the request has one) its id added; every other field kept |
| Cdc.Server.AppendOutcome | src/Server.php:196-214 | a missing entity ID, or a cookie that cannot be read, is the error; otherwise the cookie written encodes the list read with the entity moved to the end, with our lifetime |
| Cdc.Server.HandleAppend | src/Server.php:196-214 | a missing entity ID is an error; a cookie that cannot be read is an error; otherwise the cookie holds the list with the entity moved to the end |
| Cdc.Server.HandleDelete | src/Server.php:223-235 | the cookie is deleted for the whole domain, on path `/`, secure and not HTTP-only |
| Cdc.Server.HandleRead | src/Server.php:244-252 | status `ok` and the list read from the cookie, as exactly these two fields; a cookie that cannot be read is an error |
| Cdc.Server.GetCDC | src/Server.php:373-394 | no cookie is the empty list; otherwise every token is checked and decoded in place, and the first bad one is the error |
| Cdc.Server.SetCDC | src/Server.php:403-436 | the cookie written holds the entries encoded, joined and cut to the newest that fit, with our lifetime, path `/` and our domain |
| CdcProperties.UnknownOpAnswered | src/Server.php:159-175 | any other op is answered with status `unknown-op` and writes no cookie |
| CdcProperties.DeleteClearsCookie | src/Server.php:162-164 | a delete clears the cookie and answers `ok` |
| CdcProperties.ReadReportsList | src/Server.php:165-167 | a read answers `ok` with the list from the cookie and writes no cookie, or fails as reading the cookie fails |
| CdcProperties.AppendWritesCookie | src/Server.php:159-161 | an append writes the appended list and answers `ok`, or fails as the append fails |
| CdcProperties.SealValidates | src/Server.php:340-345 | a sealed message passes the signature check of a server with the same key |
| CdcProperties.SendThenGet | src/Server.php:335-337 | a sent message that names a domain and arrives within 60 seconds is read back exactly as stamped |
| CdcProperties.KeyedTextsDiffer | src/Server.php:364 | the texts signed under two different keys differ |
| CdcProperties.SignatureBindsKey | src/Server.php:362-365 | with a digest that tells its inputs apart, two different keys never give the same signature for the same text |
| CdcProperties.TextTimestampFresh | src/Server.php:283-290 | a timestamp sent as the decimal text of a number passes the freshness check exactly when the number does |
| CdcProperties.OtherKeyRejects | src/Server.php:362-365 | with a digest that tells its inputs apart, a message sealed under one key fails validation under any other key |
| CdcProperties.ForeignResponseRefused | src/Server.php:109-114 | a response naming another domain is refused whatever its signature |
| CdcProperties.RequestAccepted | src/Server.php:124-136 | a request sent by a configured domain and arriving in time is handled exactly as stamped |
| CdcProperties.ResponseAccepted | src/Server.php:103-117 | the response to a handled request, arriving in time, is accepted by the same domain exactly as sent |
| CdcProperties.ClientRequestAccepted | src/Client.php:60-65 | a request sent by the client of a configured domain, arriving in time, is handled by the server exactly as the client stamped it |
| CdcProperties.ProtocolRoundTrip | src/Client.php:60-65 | client request, server handling, and the client reading the response: the response goes to the return URL, echoes the op and is accepted |
| CdcProperties.AppendThenRead | src/Server.php:196-214 | after an append the cookie reads back as the newest entries of the moved list: never empty, entity last, still no repeats, and the whole list with the entity moved when it fits |
| CdcProperties.UncheckedEntityBreaksReads | src/Server.php:196-214 | the entity ID is not checked: appending a non-URI ID writes a non-empty cookie that every later read rejects; appending an empty ID writes either the empty value or a non-empty cookie that every later read rejects |

## Left out

- HTTP side effects are not performed; they are returned as values. These are `redirectTrustedURL`, `submitPOSTData` and `setCookie`: the model gives `Delivery` and `CookieWrite`, in order, in `Exchange`.
- Logging is left out.
- The clock is not read. `time()` is the parameter `now`.
- `$_REQUEST` and `$_COOKIE` are parameters.
- Loading the module configuration is a map parameter. A configuration entry whose `server` or `key` is not a string is not modelled.
- SHA-1, `json_encode`, `json_decode`, `addURLParameters` and the URI assertion are functions of the `Host` record. They have no definitions here.
  - The protocol lemmas assume that JSON round-trips and is never empty (`Host.Valid`).
  - `OtherKeyRejects` assumes that the digest tells its inputs apart.
- Cdc.Get: the base64 check from the assertion library is read as "canonical padded base64 of a non-empty string". Under this reading the `base64_decode` failure branches are unreachable, so they are not modelled.
- JSON numbers with fractions, and nested JSON objects, are not values of the model. Only null, booleans, integers, strings and lists are.
- Values.StrToInt: PHP's `(int)` on strings with leading whitespace, exponent notation or out-of-range digits is not modelled. Integers are unbounded, so PHP's 64-bit overflow in `timestamp + 60` is not modelled either.
- The order of fields in the JSON text is not modelled, because a message is a map.
- CookieWrite: a cookie written with the empty value is kept as `Some("")`; the browser deleting such a cookie is not modelled.
- Concurrent requests that write the same cookie are not modelled.
- The controllers, the authentication processing filter, `www/resume.php` and the older `lib/` classes are not part of this model.
- The `Client` class only delegates. Its `sendRequest` is `Cdc.Server.ClientRequest`, and its `getResponse` is `Cdc.Server.GetResponse`.
- Cdc.ProcessRequest: its own contract states the checks that passed. That the request is then handled exactly as sent is stated by `CdcProperties.RequestAccepted`.
