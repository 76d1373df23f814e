/**
 The request handler of the emote relay. An OPTIONS request gets the CORS
 preflight answer and any method other than GET gets 405. A GET request's query
 pairs are folded into a parameter object and `server`, `tc`, `uid1` and
 `emote_id` are checked for presence, which yields 400 if one is missing. Then a
 forwarding URL is built from `server`, `tc`, the present `uid1`..`uid5` and
 `emote_id`, and the outcome of the single upstream call is wrapped in a JSON
 envelope: 200 for any upstream answer whatever its status, 500 for a failure.

 The upstream call itself is not modelled. Plan says whether the handler
 forwards and to which URL. Handle takes the upstream outcome as a parameter
 and uses it only when Plan forwards.
 */
module Relay {
  import opened Wrappers
  import Utf8
  import UriCodec
  import Query

  /** The JSON values the handler passes to JSON.stringify. Object members keep
      their order. */
  datatype Json =
    | JString(str: string)
    | JNumber(num: int)
    | JBool(flag: bool)
    | JArray(items: seq<Json>)
    | JObject(members: seq<(string, Json)>)

  /** A response: status, header map and body, where None is a null body. */
  datatype Response = Response(status: int, headers: map<string, string>, body: Option<Json>)

  /** What the single upstream call produced: a response with its status and
      body text, or the message of the exception it raised. */
  datatype Outcome = Upstream(status: int, text: string) | Failure(message: string)

  /** The handler's decision before any upstream call: answer at once, or
      forward to a URL. */
  datatype Step = Reply(response: Response) | Forward(url: string)

  /** The parameters a GET request must carry, in the order the 400 body lists them. */
  const Required: seq<string> := ["server", "tc", "uid1", "emote_id"]

  const AllowOrigin: string := "Access-Control-Allow-Origin"

  const PreflightHeaders: map<string, string> := map[
    AllowOrigin := "*",
    "Access-Control-Allow-Methods" := "GET, POST, OPTIONS",
    "Access-Control-Allow-Headers" := "Content-Type"
  ]

  const JsonHeaders: map<string, string> := map[
    "Content-Type" := "application/json",
    AllowOrigin := "*"
  ]

  function ErrorBody(message: string): Json {
    JObject([("error", JString(message))])
  }

  function MissingBody(): Json {
    JObject([
      ("error", JString("Missing required parameters")),
      ("required", JArray([JString("server"), JString("tc"), JString("uid1"), JString("emote_id")]))
    ])
  }

  function SuccessBody(status: int, text: string): Json {
    JObject([
      ("success", JBool(true)),
      ("status", JNumber(status)),
      ("message", JString("Emote sent successfully")),
      ("data", JString(text))
    ])
  }

  function FailureBody(message: string): Json {
    JObject([("success", JBool(false)), ("error", JString(message))])
  }

  /** The validation of the handler: each required parameter is truthy. */
  predicate Valid(params: map<string, string>) {
    && Query.Truthy(params, "server")
    && Query.Truthy(params, "tc")
    && Query.Truthy(params, "uid1")
    && Query.Truthy(params, "emote_id")
  }

  /** Every required parameter is supplied, judged on the raw query pairs. */
  ghost predicate AllSupplied(query: seq<Query.Pair>) {
    forall i :: 0 <= i < |Required| ==> Query.Supplied(query, Required[i])
  }

  /** Validating the folded parameter object is the same as asking that the
      last pair for each required key be non-empty. */
  lemma ValidIffAllSupplied(query: seq<Query.Pair>)
    ensures Valid(Query.FromEntries(query)) <==> AllSupplied(query)
  {
    assert Required[0] == "server" && Required[1] == "tc";
    assert Required[2] == "uid1" && Required[3] == "emote_id";
    Query.TruthyIffSupplied(query, "server");
    Query.TruthyIffSupplied(query, "tc");
    Query.TruthyIffSupplied(query, "uid1");
    Query.TruthyIffSupplied(query, "emote_id");
  }

  // ---------------------------------------------------------------------------
  // The forwarding URL

  type UidIndex = n: int | 1 <= n <= 5 witness 1

  /** The parameter name `uid1` .. `uid5`. */
  function UidKey(n: UidIndex): (k: string)
    ensures Query.PlainKey(k)
  {
    "uid" + [('0' as int + n) as char]
  }

  /** The uid indices below `hi` whose parameter is present and non-empty, in
      ascending order: the ones the loop over 1..5 has kept once it reaches `hi`. */
  function PresentUidsBelow(params: map<string, string>, hi: int): (ids: seq<UidIndex>)
    requires 1 <= hi <= 6
    ensures forall i, j :: 0 <= i < j < |ids| ==> ids[i] < ids[j]
    ensures forall i :: 0 <= i < |ids| ==> ids[i] < hi
  {
    if hi == 1 then []
    else
      var below := PresentUidsBelow(params, hi - 1);
      if Query.Truthy(params, UidKey(hi - 1)) then below + [hi - 1] else below
  }

  /** A uid is kept exactly when it lies below `hi` and is truthy. */
  lemma {:induction false} PresentUidsMember(params: map<string, string>, hi: int, n: UidIndex)
    requires 1 <= hi <= 6
    ensures n in PresentUidsBelow(params, hi) <==> n < hi && Query.Truthy(params, UidKey(n))
  {
    if hi > 1 {
      PresentUidsMember(params, hi - 1, n);
    }
  }

  function PresentUids(params: map<string, string>): seq<UidIndex> {
    PresentUidsBelow(params, 6)
  }

  function UidField(params: map<string, string>, n: UidIndex): Query.Pair {
    (UidKey(n), Query.Get(params, UidKey(n)))
  }

  function UidFields(params: map<string, string>, ids: seq<UidIndex>): seq<Query.Pair> {
    seq(|ids|, i requires 0 <= i < |ids| => UidField(params, ids[i]))
  }

  /** The parameters the forwarding URL carries, in order: `tc`, the present
      uids in ascending order, `emote_id`. */
  function Fields(params: map<string, string>): seq<Query.Pair> {
    [("tc", Query.Get(params, "tc"))]
      + UidFields(params, PresentUids(params))
      + [("emote_id", Query.Get(params, "emote_id"))]
  }

  /** The array of URL pieces the handler joins with `&`: `server` verbatim
      with `/join?tc=`, then one `uidN=` piece per present uid, then `emote_id=`.
      Every value but `server` goes through encodeURIComponent. */
  function UrlParts(params: map<string, string>): seq<string>
    requires Valid(params)
  {
    [params["server"] + "/join?tc=" + UriCodec.Encode(params["tc"])]
      + UidPieces(params, PresentUids(params))
      + ["emote_id=" + UriCodec.Encode(params["emote_id"])]
  }

  /** The `uidN=<encoded value>` pieces for the given uids. */
  function UidPieces(params: map<string, string>, ids: seq<UidIndex>): seq<string> {
    Query.FieldStrings(UidFields(params, ids))
  }

  /** One round of the loop over the uids: the piece for uid `n` is added
      exactly when that uid is truthy. */
  lemma UidPiecesStep(params: map<string, string>, n: UidIndex)
    ensures UidPieces(params, PresentUidsBelow(params, n + 1)) ==
      UidPieces(params, PresentUidsBelow(params, n))
      + (if Query.Truthy(params, UidKey(n)) then [UidKey(n) + "=" + UriCodec.Encode(params[UidKey(n)])] else [])
  {
  }

  function TargetUrl(params: map<string, string>): string
    requires Valid(params)
  {
    Query.Join(UrlParts(params), '&')
  }

  /** The URL construction as the handler performs it: a loop over 1..5 that
      pushes a piece for each truthy uid, then the `emote_id` piece and a join. */
  method BuildTargetUrl(params: map<string, string>) returns (url: string)
    requires Valid(params)
    ensures url == TargetUrl(params)
  {
    var head := params["server"] + "/join?tc=" + UriCodec.Encode(params["tc"]);
    var pieces: seq<string> := [];
    for i := 1 to 6
      invariant pieces == UidPieces(params, PresentUidsBelow(params, i))
    {
      UidPiecesStep(params, i);
      var key := UidKey(i);
      if Query.Truthy(params, key) {
        pieces := pieces + [key + "=" + UriCodec.Encode(params[key])];
      }
    }
    var parts := [head] + pieces + ["emote_id=" + UriCodec.Encode(params["emote_id"])];
    url := Query.Join(parts, '&');
  }

  /** The piece `&uidN=<encoded value>` for each given uid, concatenated. */
  function UidSegments(params: map<string, string>, ids: seq<UidIndex>): string {
    if |ids| == 0 then ""
    else "&" + Query.FieldString(UidField(params, ids[0])) + UidSegments(params, ids[1..])
  }

  lemma {:induction false} SegmentsOfUids(params: map<string, string>, ids: seq<UidIndex>)
    ensures Query.Segments(Query.FieldStrings(UidFields(params, ids)), '&') == UidSegments(params, ids)
  {
    if |ids| > 0 {
      SegmentsOfUids(params, ids[1..]);
      assert Query.FieldStrings(UidFields(params, ids))[1..] == Query.FieldStrings(UidFields(params, ids[1..]));
    }
  }

  /** The forwarding URL is `server` verbatim, `/join?tc=` and the encoded `tc`,
      then `&uidN=<encoded uidN>` for exactly the present uids in ascending
      order, and last `&emote_id=` with the encoded `emote_id`. */
  lemma TargetUrlShape(params: map<string, string>)
    requires Valid(params)
    ensures TargetUrl(params) ==
      params["server"] + "/join?tc=" + UriCodec.Encode(params["tc"])
      + UidSegments(params, PresentUids(params))
      + "&emote_id=" + UriCodec.Encode(params["emote_id"])
  {
    var head := params["server"] + "/join?tc=" + UriCodec.Encode(params["tc"]);
    var uids := UidPieces(params, PresentUids(params));
    var e := UriCodec.Encode(params["emote_id"]);
    var last := "emote_id=" + e;
    assert UrlParts(params) == [head] + uids + [last];
    Query.JoinFramed(head, uids, last, '&');
    SegmentsOfUids(params, PresentUids(params));
    AppendTail(head + UidSegments(params, PresentUids(params)), e);
  }

  lemma AppendTail(x: string, e: string)
    ensures x + ['&'] + ("emote_id=" + e) == x + "&emote_id=" + e
  {
    assert ['&'] + ("emote_id=" + e) == "&emote_id=" + e;
  }

  /** The text of the URL after `server` and `/join?`. */
  function QueryOf(params: map<string, string>): string
    requires Valid(params)
  {
    var url := TargetUrl(params);
    var skip := |params["server"]| + |"/join?"|;
    if skip <= |url| then url[skip..] else ""
  }

  lemma FieldsAsPieces(params: map<string, string>)
    requires Valid(params)
    ensures Query.FieldStrings(Fields(params)) ==
      ["tc=" + UriCodec.Encode(params["tc"])]
      + UidPieces(params, PresentUids(params))
      + ["emote_id=" + UriCodec.Encode(params["emote_id"])]
  {
    var a := ("tc", params["tc"]);
    var u := UidFields(params, PresentUids(params));
    var b := ("emote_id", params["emote_id"]);
    assert Fields(params) == [a] + u + [b];
    Query.FieldStringsConcat([a] + u, [b]);
    Query.FieldStringsConcat([a], u);
    Query.FieldStringSingle(a);
    Query.FieldStringSingle(b);
    PieceLiterals(UriCodec.Encode(params["tc"]), UriCodec.Encode(params["emote_id"]));
  }

  lemma PieceLiterals(t: string, e: string)
    ensures "tc" + "=" + t == "tc=" + t
    ensures "emote_id" + "=" + e == "emote_id=" + e
  {
    assert "tc" + "=" == "tc=";
    assert "emote_id" + "=" == "emote_id=";
  }

  /** The forwarding URL is `server`, then `/join?`, then the query written
      from Fields. */
  lemma TargetUrlAsQuery(params: map<string, string>)
    requires Valid(params)
    ensures TargetUrl(params) == params["server"] + "/join?" + Query.Join(Query.FieldStrings(Fields(params)), '&')
  {
    var server := params["server"];
    var tc := "tc=" + UriCodec.Encode(params["tc"]);
    var uids := UidPieces(params, PresentUids(params));
    var last := "emote_id=" + UriCodec.Encode(params["emote_id"]);
    FieldsAsPieces(params);
    JoinPrefix(server, UriCodec.Encode(params["tc"]));
    assert UrlParts(params) == [server + "/join?" + tc] + uids + [last];
    Query.JoinHead(server + "/join?", tc, uids, last, '&');
  }

  lemma JoinPrefix(server: string, e: string)
    ensures server + "/join?tc=" + e == server + "/join?" + ("tc=" + e)
  {
  }

  /** Reading the forwarding URL's query back (split on `&`, split each piece at
      `=`, decodeURIComponent) gives exactly `tc`, the present uids in ascending
      order and `emote_id`, with their original values. */
  lemma TargetUrlQueryRoundTrip(params: map<string, string>)
    requires Valid(params)
    ensures Query.DecodeQuery(QueryOf(params)) == Some(Fields(params))
  {
    var prefix := params["server"] + "/join?";
    var text := Query.Join(Query.FieldStrings(Fields(params)), '&');
    TargetUrlAsQuery(params);
    assert (prefix + text)[|prefix|..] == text;
    FieldsPlainKeys(params);
    Query.DecodeJoinedFields(Fields(params));
  }

  lemma FieldsPlainKeys(params: map<string, string>)
    ensures |Fields(params)| >= 1
    ensures forall i :: 0 <= i < |Fields(params)| ==> Query.PlainKey(Fields(params)[i].0)
  {
  }

  // ---------------------------------------------------------------------------
  // The handler

  /** Everything the handler does before the upstream call. */
  function Plan(verb: string, query: seq<Query.Pair>): (r: Step)
    ensures r.Forward? <==> verb == "GET" && AllSupplied(query)
  {
    ValidIffAllSupplied(query);
    if verb == "OPTIONS" then
      Reply(Response(200, PreflightHeaders, None))
    else if verb != "GET" then
      Reply(Response(405, JsonHeaders, Some(ErrorBody("Method not allowed"))))
    else
      var params := Query.FromEntries(query);
      if !Valid(params) then
        Reply(Response(400, JsonHeaders, Some(MissingBody())))
      else
        Forward(TargetUrl(params))
  }

  /** The envelope around the upstream outcome: 200 for any upstream answer,
      500 for a failure, always with the JSON headers. */
  function Wrap(outcome: Outcome): (r: Response)
    ensures r.headers == JsonHeaders && r.body.Some?
    ensures r.status == 200 <==> outcome.Upstream?
    ensures r.status == 500 <==> outcome.Failure?
  {
    match outcome
    case Upstream(status, text) => Response(200, JsonHeaders, Some(SuccessBody(status, text)))
    case Failure(message) => Response(500, JsonHeaders, Some(FailureBody(message)))
  }

  /** The envelope loses nothing: the upstream status and text, or the failure
      message, can be read back from the response. */
  lemma WrapInjective(o1: Outcome, o2: Outcome)
    requires Wrap(o1) == Wrap(o2)
    ensures o1 == o2
  {
    var b := Wrap(o1).body.value;
    if o1.Upstream? {
      assert b.members[1].1 == JNumber(o1.status);
      assert b.members[3].1 == JString(o1.text);
    } else {
      assert b.members[1].1 == JString(o1.message);
    }
  }

  /** The handler, with the upstream call's outcome given. */
  function Handle(verb: string, query: seq<Query.Pair>, outcome: Outcome): (r: Response)
    ensures AllowOrigin in r.headers && r.headers[AllowOrigin] == "*"
    ensures verb == "OPTIONS" ==>
      && r.status == 200 && r.body.None?
      && r.headers.Keys == {AllowOrigin, "Access-Control-Allow-Methods", "Access-Control-Allow-Headers"}
      && r.headers["Access-Control-Allow-Methods"] == "GET, POST, OPTIONS"
      && r.headers["Access-Control-Allow-Headers"] == "Content-Type"
    ensures verb != "OPTIONS" ==> r.headers == JsonHeaders && r.body.Some?
    ensures verb != "OPTIONS" && verb != "GET" ==>
      r.status == 405 && r.body.value == ErrorBody("Method not allowed")
    ensures verb == "GET" && !AllSupplied(query) ==>
      r.status == 400 && r.body.value == MissingBody()
    ensures verb == "GET" && AllSupplied(query) && outcome.Upstream? ==>
      r.status == 200 && r.body.value == SuccessBody(outcome.status, outcome.text)
    ensures verb == "GET" && AllSupplied(query) && outcome.Failure? ==>
      r.status == 500 && r.body.value == FailureBody(outcome.message)
  {
    match Plan(verb, query)
    case Reply(response) => response
    case Forward(_) => Wrap(outcome)
  }

  /** The upstream outcome matters only when the handler forwards: every other
      answer is the same whatever the upstream would have done. */
  lemma OutcomeUsedOnlyWhenForwarding(verb: string, query: seq<Query.Pair>, o1: Outcome, o2: Outcome)
    requires Plan(verb, query).Reply?
    ensures Handle(verb, query, o1) == Handle(verb, query, o2)
  {
  }

  /** When the handler forwards, it forwards to the URL built from the folded
      parameter object, whose values are those of the last pair for each key. */
  lemma ForwardUsesLastValues(verb: string, query: seq<Query.Pair>, k: string, i: int)
    requires verb == "GET" && Valid(Query.FromEntries(query))
    requires Query.IsLastOccurrence(query, k, i)
    ensures Plan(verb, query) == Forward(TargetUrl(Query.FromEntries(query)))
    ensures Query.Get(Query.FromEntries(query), k) == query[i].1
  {
    Query.FromEntriesLastWins(query, k, i);
  }

  lemma UidKeyInjective(m: UidIndex, n: UidIndex)
    requires UidKey(m) == UidKey(n)
    ensures m == n
  {
    assert UidKey(m)[3] == UidKey(n)[3];
  }

  lemma InUidFields(params: map<string, string>, ids: seq<UidIndex>, n: UidIndex, v: string)
    ensures (UidKey(n), v) in UidFields(params, ids) <==> n in ids && v == Query.Get(params, UidKey(n))
  {
    var u := UidFields(params, ids);
    if (UidKey(n), v) in u {
      var i :| 0 <= i < |u| && u[i] == (UidKey(n), v);
      UidKeyInjective(ids[i], n);
    }
    if n in ids && v == Query.Get(params, UidKey(n)) {
      var i :| 0 <= i < |ids| && ids[i] == n;
      assert u[i] == (UidKey(n), v);
    }
  }

  /** `uidN=v` is among the forwarded parameters exactly when `uidN` is present
      and non-empty and `v` is its value. */
  lemma UidForwardedIff(params: map<string, string>, n: UidIndex, v: string)
    requires Valid(params)
    ensures (UidKey(n), v) in Fields(params) <==> Query.Truthy(params, UidKey(n)) && v == params[UidKey(n)]
  {
    var u := UidFields(params, PresentUids(params));
    assert |UidKey(n)| == 4;
    assert (UidKey(n), v) in Fields(params) <==> (UidKey(n), v) in u;
    InUidFields(params, PresentUids(params), n, v);
    PresentUidsMember(params, 6, n);
  }

  // ---------------------------------------------------------------------------
  // Worked examples

  const ExampleQuery: seq<Query.Pair> := [
    ("server", "http://h"), ("tc", "a&b"), ("uid1", "100"), ("uid3", "300"), ("emote_id", "7")
  ]

  const ExampleParams: map<string, string> :=
    map["server" := "http://h", "tc" := "a&b", "uid1" := "100", "uid3" := "300", "emote_id" := "7"]

  lemma ExampleFold()
    ensures Query.FromEntries(ExampleQuery) == ExampleParams
  {
    var q := ExampleQuery;
    assert q[..5][..4] == q[..4] && q[..4][..3] == q[..3];
    assert q[..3][..2] == q[..2] && q[..2][..1] == q[..1] && q[..1][..0] == [];
    assert Query.FromEntries(q[..1]) == map["server" := "http://h"];
    assert Query.FromEntries(q[..2]) == map["server" := "http://h", "tc" := "a&b"];
    assert Query.FromEntries(q[..3]) == map["server" := "http://h", "tc" := "a&b", "uid1" := "100"];
    assert Query.FromEntries(q[..4]) == map["server" := "http://h", "tc" := "a&b", "uid1" := "100", "uid3" := "300"];
    assert q == q[..5];
  }

  /** The query delimiter `&` inside a value is escaped. */
  lemma ExampleEncode()
    ensures UriCodec.Encode("a&b") == "a%26b"
  {
    assert Utf8.Encode('&') == [0x26];
    assert UriCodec.EncodeChar('&') == "%26";
  }

  lemma ExampleUids()
    ensures PresentUids(ExampleParams) == [1, 3]
  {
    var p := ExampleParams;
    assert UidKey(1) == "uid1" && UidKey(2) == "uid2" && UidKey(3) == "uid3";
    assert UidKey(4) == "uid4" && UidKey(5) == "uid5";
    assert p.Keys == {"server", "tc", "uid1", "uid3", "emote_id"};
    assert Query.Truthy(p, "uid1") && Query.Truthy(p, "uid3");
    assert !Query.Truthy(p, "uid2") && !Query.Truthy(p, "uid4") && !Query.Truthy(p, "uid5");
    assert PresentUidsBelow(p, 1) == [];
    assert PresentUidsBelow(p, 2) == [1];
    assert PresentUidsBelow(p, 3) == [1];
    assert PresentUidsBelow(p, 4) == [1, 3];
    assert PresentUidsBelow(p, 5) == [1, 3];
  }

  lemma ExamplePieces()
    ensures Query.FieldString(UidField(ExampleParams, 1)) == "uid1=100"
    ensures Query.FieldString(UidField(ExampleParams, 3)) == "uid3=300"
  {
    assert UidKey(1) == "uid1" && UidKey(3) == "uid3";
    assert UriCodec.Encode("100") == "100" && UriCodec.Encode("300") == "300";
  }

  lemma ExampleSegments()
    ensures UidSegments(ExampleParams, [1, 3]) == "&" + "uid1=100" + ("&" + "uid3=300")
  {
    var p := ExampleParams;
    ExamplePieces();
    assert [1, 3][1..] == [3];
    assert UidSegments(p, [3]) == "&" + "uid3=300" by {
      assert [3][1..] == [];
    }
  }

  /** The pieces of the example URL, written out as one string. */
  lemma ExampleUrlText()
    ensures "http://h" + "/join?tc=" + "a%26b" + ("&" + "uid1=100" + ("&" + "uid3=300")) + "&emote_id=" + "7"
         == "http://h/join?tc=a%26b&uid1=100&uid3=300&emote_id=7"
  {
  }

  /** With `uid1` and `uid3` given and the other uids absent, the handler
      forwards to a URL that carries `uid1=100` and `uid3=300` only, with `tc`
      percent-encoded. */
  lemma ExampleForward()
    ensures Plan("GET", ExampleQuery) == Forward("http://h/join?tc=a%26b&uid1=100&uid3=300&emote_id=7")
  {
    var p := ExampleParams;
    var url := "http://h" + "/join?tc=" + "a%26b" + ("&" + "uid1=100" + ("&" + "uid3=300")) + "&emote_id=" + "7";
    ExampleUrlText();
    assert Valid(p);
    assert TargetUrl(p) == url by {
      ExampleUids();
      ExampleEncode();
      ExampleSegments();
      assert UriCodec.Encode("7") == "7";
      TargetUrlShape(p);
    }
    ExampleFold();
  }

  /** An upstream 503 is still a relayed success: status 200, with the upstream
      status and body reported inside the envelope. */
  lemma ExampleUpstreamDown()
    ensures Handle("GET", ExampleQuery, Upstream(503, "down"))
         == Response(200, JsonHeaders, Some(SuccessBody(503, "down")))
  {
    ExampleForward();
  }

  /** A failed upstream call becomes 500 with the failure's message. */
  lemma ExampleTimeout()
    ensures Handle("GET", ExampleQuery, Failure("timeout"))
         == Response(500, JsonHeaders, Some(FailureBody("timeout")))
  {
    ExampleForward();
  }

  /** A later empty `tc` overrides the earlier one, so the request counts as
      missing `tc` and is refused with 400 before any URL is built. */
  lemma ExampleLaterEmptyValueWins()
    ensures Plan("GET", ExampleQuery + [("tc", "")])
         == Reply(Response(400, JsonHeaders, Some(MissingBody())))
  {
  }
}
