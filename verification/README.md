# Emote relay request handler

A Dafny model of the pure logic inside the `fetch` handler of `send-emote.js`,
a worker that relays an "emote" request to a game server. The handler does the
following:

- It answers an `OPTIONS` request with a CORS preflight.
- It refuses every method other than `GET` with 405.
- It folds the request's query pairs into a parameter object with
  `Object.fromEntries`, so the last value for a key wins.
- It checks `server`, `tc`, `uid1` and `emote_id` with JavaScript truthiness:
  an absent key and an empty value both mean missing, and give 400.
- It builds a forwarding URL:
  - `server` verbatim, then `/join?tc=` and the encoded `tc`;
  - then `uidN=` and the encoded value for each present `uid1`..`uid5`, in
    ascending order;
  - then `emote_id=` and its encoded value;
  - the pieces are joined with `&`.
- It wraps the single upstream call's outcome:
  - any upstream answer, whatever its status, becomes 200 with the upstream
    status and body text in the JSON envelope;
  - an exception becomes 500 with its message.

The model has five modules, one file each:

- `Wrappers` (`wrappers.dfy`) holds the `Option` type used by every operation
  that can fail.
- `Utf8` (`utf8.dfy`) encodes one character to UTF-8 and decodes it back. It
  accepts only shortest forms of scalar values, as the Encode and Decode
  operations of ECMA-262 section 19.2.6 do.
- `UriCodec` (`uri_codec.dfy`) holds `encodeURIComponent` and
  `decodeURIComponent`. The unreserved set is `A-Z a-z 0-9 - _ . ! ~ * ' ( )`.
  Every other character becomes the upper-case `%XX` triplets of its UTF-8
  bytes, following section 2.1 of RFC 3986. The module proves that decoding
  an encoding gives the original back.
- `Query` (`query.dfy`) holds:
  - `Object.fromEntries` as a left fold;
  - truthiness;
  - `Array.prototype.join`;
  - a reader (`Split` and `DecodeQuery`) that turns a query string back into
    its pairs, used to state the round trip of the forwarding URL.
- `Relay` (`relay.dfy`) holds:
  - the response, outcome and JSON-body datatypes;
  - the URL builder, both as a function and as the handler's loop;
  - `Plan`, which is everything before the upstream call;
  - `Handle`, the whole handler.

The upstream call is not modelled. `Handle` takes its `Outcome` as a parameter:
`Upstream(status, text)` or `Failure(message)`. `Plan` returns
`Reply(response)` or `Forward(url)`, so whether and where the handler forwards
is observable without any network.

## Model

| member | source | states |
|---|---|---|
| Relay.Handle | send-emote.js:4-93 | Every response carries `Access-Control-Allow-Origin: *`. `OPTIONS` gets 200, a null body and exactly the three preflight headers with their values. Any other method gets exactly the JSON headers and a body. A method other than `GET` gets 405 with `{error:"Method not allowed"}`. A `GET` missing a required parameter gets 400 with the fixed `required` list. An upstream answer of any status gets 200 with `{success:true, status, message, data}`. A failure gets 500 with `{success:false, error}`. |
| Relay.Plan | send-emote.js:4-54 | The handler forwards (builds a URL and calls upstream) if and only if the method is `GET` and the last pair for each of `server`, `tc`, `uid1`, `emote_id` holds a non-empty value. |
| Relay.OutcomeUsedOnlyWhenForwarding | send-emote.js:4-42 | When the handler answers without forwarding (preflight, 405, 400), the answer does not depend on the upstream outcome. |
| Relay.Wrap | send-emote.js:66-93 | The outcome mapping: every wrapped response has the JSON headers and a body. The status is 200 exactly for an upstream answer, whatever its own status, and 500 exactly for a failure. `Handle` fixes the bodies, and `WrapInjective` shows they keep everything the outcome held. |
| Relay.WrapInjective | send-emote.js:69-87 | Different outcomes give different responses: the envelope carries the upstream status and text, or the failure message, in full. |
| Relay.ForwardUsesLastValues | send-emote.js:28-54 | A `GET` that passes validation is forwarded to the URL built from the folded object, and each key's value there is that of its last occurrence in the query. |
| Relay.ValidIffAllSupplied | send-emote.js:28-31 | The truthiness test on the folded object holds exactly when the last pair for each required key is non-empty. |
| Relay.Valid | send-emote.js:31 | The validation itself: the four required parameters are truthy. It has no contract of its own. `ValidIffAllSupplied` relates it to the raw pairs, and `Plan` forwards exactly when it holds. |
| Query.FromEntriesKeys | send-emote.js:28 | The folded object has exactly the keys that occur among the pairs. |
| Query.FromEntries | send-emote.js:28 | `Object.fromEntries` as a left fold over the pairs. It has no contract of its own. `FromEntriesKeys` and `FromEntriesLastWins` state what it produces. |
| Query.FromEntriesLastWins | send-emote.js:28 | For a repeated key, the folded value is the value of the key's last occurrence. |
| Query.TruthyIffSupplied | send-emote.js:28-31 | A parameter is truthy in the folded object exactly when its last pair has a non-empty value. An absent key and an empty value are both missing. |
| Query.Get | send-emote.js:31 | Reading a parameter gives a non-empty string exactly when the parameter is truthy. |
| Relay.BuildTargetUrl | send-emote.js:45-54 | The handler's loop over uids 1..5 produces the same URL as the declarative builder `TargetUrl`. |
| Relay.TargetUrl | send-emote.js:45-54 | The forwarding URL: the pieces of `UrlParts` joined with `&`. It has no contract of its own. `TargetUrlShape`, `TargetUrlQueryRoundTrip` and `UidForwardedIff` state what it contains, and `BuildTargetUrl` computes it with the handler's loop. |
| Relay.TargetUrlShape | send-emote.js:45-54 | The URL is `server` verbatim + `/join?tc=` + enc(tc), then one `&uidN=` + enc(uidN) for each present uid in ascending order, then `&emote_id=` + enc(emote_id), with nothing else. |
| Relay.PresentUidsBelow | send-emote.js:48-52 | The uids kept by the loop are in strictly ascending order and lie below the loop's bound. |
| Relay.PresentUidsMember | send-emote.js:48-52 | A uid is kept exactly when the loop has passed it and its parameter is truthy. |
| Relay.UidForwardedIff | send-emote.js:48-52 | The pair `uidN=v` is among the forwarded parameters if and only if `uidN` is truthy and `v` is its value. |
| Relay.UidKey | send-emote.js:49-50 | The names `uid1`..`uid5` need no encoding in a query: they hold no `&`, `=` or `%`. |
| Relay.FieldsPlainKeys | send-emote.js:45-53 | Every forwarded parameter name (`tc`, `uidN`, `emote_id`) is a plain query name. |
| Relay.TargetUrlAsQuery | send-emote.js:45-54 | The URL is `server` + `/join?` + the `&`-joined `name=enc(value)` pieces of the forwarded parameters. |
| Relay.TargetUrlQueryRoundTrip | send-emote.js:45-54 | Reading back the text after `server/join?` (split on `&`, split at the first `=`, decode) gives exactly `tc`, the present uids in ascending order and `emote_id`, with their original values. |
| Query.SplitJoin | send-emote.js:54 | Splitting on the separator undoes `join` when no part contains the separator. |
| Query.Join | send-emote.js:54 | `Array.prototype.join`. It has no contract of its own. `SplitJoin` shows `split` undoes it, and `JoinFramed` describes it as a first part followed by separator-led parts. |
| Query.JoinFramed | send-emote.js:54 | Joining a first part, middle parts and a last part writes the first part, then each later part after a separator. |
| Query.DecodeFieldString | send-emote.js:50 | A `name=enc(value)` piece with a plain name reads back as its pair. |
| Query.DecodeFieldStrings | send-emote.js:45-53 | A sequence of such pieces reads back as its pairs, in order. |
| Query.DecodeJoinedFields | send-emote.js:45-54 | A non-empty query written from pairs with plain names reads back as exactly those pairs, in order. |
| UriCodec.EncodeWellEncoded | send-emote.js:45-53 | `encodeURIComponent` output holds only unreserved characters and upper-case `%XX` triplets. A value of unreserved characters only is left unchanged. |
| UriCodec.Encode | send-emote.js:45-53 | `encodeURIComponent`: the output is never shorter than the input. `EncodeSingle` and `EncodeConcat` fix the output completely, and `DecodeEncode` shows it can be undone. |
| UriCodec.EncodeSingle | send-emote.js:45-53 | An unreserved character is written as itself. Any other character is written as the `%XX` triplets of its UTF-8 bytes. |
| UriCodec.EncodeConcat | send-emote.js:45-53 | The encoding of a concatenation is the concatenation of the encodings, so every character is encoded independently of its neighbours. |
| UriCodec.WellEncodedAlphabet | send-emote.js:45-54 | Such output never contains `&`, `=`, `#`, `+` or a space, so it cannot break the query's structure. |
| UriCodec.DecodeEncode | send-emote.js:45-53 | `decodeURIComponent(encodeURIComponent(s)) == s` for every string. |
| UriCodec.DecodeEncodeChar | send-emote.js:45-53 | Decoding reads back one encoded character and then continues with the rest of the input. |
| UriCodec.EncodeInjective | send-emote.js:45-53 | Two different values never have the same encoding. |
| UriCodec.DecodePlain | send-emote.js:45-54 | A string without `%` decodes to itself. This covers the parameter names in the forwarded query. |
| UriCodec.HexValue | send-emote.js:45-53 | A hex digit of either case has a value below 16. An upper-case digit reads back to the digit it came from. Any other character is rejected. |
| UriCodec.EscapeByte | send-emote.js:45-53 | A byte is written as `%` and two upper-case hex digits. |
| UriCodec.ReadEscapedBytes | send-emote.js:45-53 | Reading `n` triplets back from escaped bytes gives those bytes. |
| Utf8.Encode | send-emote.js:45-53 | A character becomes 1 to 4 bytes. The lead byte announces the length, and the remaining bytes are continuation bytes. Exactly the ASCII characters take one byte. |
| Utf8.SequenceLength | send-emote.js:45-53 | A lead byte announces at most 4 bytes. Exactly the ASCII bytes announce 1. Continuation bytes and bytes from 0xF8 start no sequence. |
| Utf8.Decode | send-emote.js:45-53 | Every sequence the decoder accepts is the encoding of the character it returns, so overlong forms and surrogates are rejected. |
| Utf8.EncodeCodePoint | send-emote.js:45-53 | A well-shaped, shortest byte sequence spelling a scalar value is the encoding of that value. |
| Utf8.DecodeEncode | send-emote.js:45-53 | Decoding the UTF-8 encoding of any character gives that character back. |
| Relay.ExampleFold | send-emote.js:28 | A concrete query folds into the expected parameter object. |
| Relay.ExampleEncode | send-emote.js:45 | `a&b` encodes as `a%26b`. |
| Relay.ExampleUids | send-emote.js:48-52 | With `uid1` and `uid3` given, the loop keeps `[1, 3]`. |
| Relay.ExampleForward | send-emote.js:45-54 | The concrete request forwards to `http://h/join?tc=a%26b&uid1=100&uid3=300&emote_id=7`. |
| Relay.ExampleUrlText | send-emote.js:45-54 | The pieces of the example URL make up the single string `http://h/join?tc=a%26b&uid1=100&uid3=300&emote_id=7`. |
| Relay.ExampleUpstreamDown | send-emote.js:66-80 | An upstream 503 becomes relay status 200 with 503 inside the envelope. |
| Relay.ExampleTimeout | send-emote.js:82-93 | A failed upstream call becomes 500 carrying the failure's message. |
| Relay.ExampleLaterEmptyValueWins | send-emote.js:28-42 | A later empty `tc` overrides an earlier one, so the request gets 400 and nothing is forwarded. |

## Left out

- The outbound `fetch`, `apiResponse.text()` and `async`/`await` (send-emote.js:57-66) are network I/O. `Handle` takes their result as the `Outcome` parameter.
- The fixed outbound request headers (`User-Agent`, `Accept`, `Connection`, send-emote.js:58-63) are constants with no logic. `Forward` carries only the URL.
- Parsing `request.url` with `new URL`, and the form-urlencoded decoding of `searchParams` (send-emote.js:27), are host library behaviour. The model starts from the already-decoded list of query pairs. It does not model a parse failure inside the `try`, which would take the 500 path.
- The bytes `JSON.stringify` writes and the `Response`/`Headers` objects are not modelled. Bodies are the `Json` datatype, with object members in source order, and a response is a status, a header map and an optional body.
- The lone-surrogate `URIError` of `encodeURIComponent` cannot occur. A Dafny `char` is a Unicode scalar value, which matches search-param values being USV strings.
- `server` is used verbatim, as in the source, with no validation added.
- `Query.DecodeQuery` is the model's own reader of the forwarding URL. It splits on `&` and at the first `=`, then applies `decodeURIComponent`. It is not the WHATWG form decoder: `+` is not read as a space, and empty pieces are not skipped. It is only used to state the round trip of the builder.
- JavaScript property lookup through the prototype chain is not modelled. A parameter is a key of the folded map, and no required name (`server`, `tc`, `uid1`..`uid5`, `emote_id`) is an `Object.prototype` property.
