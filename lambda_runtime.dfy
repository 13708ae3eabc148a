/**
 * The client of the AWS Lambda runtime API (`LambdaRuntime`): fetching
 * the next invocation, reporting a response and reporting a failure.
 *
 * The HTTP transfers themselves are curl's and are inputs here: a fetch
 * is described by what curl hands to the two callbacks and by the error
 * text it reports afterwards; a POST by the error text it reports.
 * `json_encode` and `json_decode` are parameters as well.
 */
module Runtime {
  import opened Wrappers
  import opened PhpStrings
  import opened PhpValues

  /** The header that carries the invocation id, in lower case. */
  const RequestIdHeader: Bytes := "lambda-runtime-aws-request-id"

  /** One unit of work: its id and the JSON-decoded event. */
  datatype Invocation = Invocation(id: Bytes, event: Value)

  /**
   * What curl does for the fetch: the lines it passes to the header
   * callback and the chunks it passes to the write callback, each in
   * arrival order, and what `curl_error` returns afterwards ("" when the
   * transfer succeeded).
   */
  datatype FetchTransfer = FetchTransfer(headerLines: seq<Bytes>, bodyChunks: seq<Bytes>, curlError: Bytes)

  /** An HTTP request the client hands to curl. */
  datatype Request = Request(verb: Bytes, url: Bytes, headers: seq<Bytes>, body: Bytes)

  /** The exceptions the client throws (all of class `Exception`). */
  datatype RuntimeError =
    | FetchFailed(curlError: Bytes)
    | MissingInvocationId
    | EmptyResponse
    | EncodingFailed(jsonError: Bytes)
    | ApiCallFailed(curlError: Bytes)
  {
    function Message(): Bytes {
      match this
      case FetchFailed(e) => FetchFailedPrefix + e
      case MissingInvocationId => MissingInvocationIdText
      case EmptyResponse => EmptyResponseText
      case EncodingFailed(e) => EncodingFailedPrefix + e
      case ApiCallFailed(e) => ApiCallFailedPrefix + e
    }

    function AsThrowable(): Throwable {
      Throwable("Exception", Message())
    }
  }

  const FetchFailedPrefix: Bytes := "Failed to fetch next Lambda invocation: "
  const MissingInvocationIdText: Bytes := "Failed to determine the Lambda invocation ID"
  const EmptyResponseText: Bytes := "Empty Lambda runtime API response"
  const EncodingFailedPrefix: Bytes := "Failed encoding Lambda JSON response: "
  const ApiCallFailedPrefix: Bytes := "Error while calling the Lambda runtime API: "

  /** What a `postJson` call did: the requests it sent, and whether it returned or threw. */
  datatype PostResult = PostResult(sent: seq<Request>, outcome: Outcome<RuntimeError>)

  // ------------------------------------------------------ header callback

  /** Index of the first ':' in `s`, if any. */
  function FirstColon(s: Bytes): (r: Option<nat>)
    ensures r.Some? ==> r.value < |s|
  {
    if s == [] then None
    else if s[0] == ':' then Some(0)
    else match FirstColon(s[1..])
      case None => None
      case Some(k) => Some(k + 1)
  }

  /** `FirstColon` finds a colon exactly when there is one, and then the leftmost. */
  lemma {:induction false} FirstColonSpec(s: Bytes)
    ensures FirstColon(s).None? <==> ':' !in s
    ensures FirstColon(s).Some? ==>
      FirstColon(s).value < |s| && s[FirstColon(s).value] == ':' && ':' !in s[..FirstColon(s).value]
  {
    if s != [] && s[0] != ':' {
      FirstColonSpec(s[1..]);
      if FirstColon(s[1..]).Some? {
        var k := FirstColon(s[1..]).value;
        assert s[..k + 1] == [s[0]] + s[1..][..k];
      }
    }
  }

  /**
   * The header split on a line that has a ':': it is cut at the first ':'
   * and the run of `\s` bytes after it, into at most two pieces, the name
   * before the cut and the value after it. `None` when the line has no ':'
   * (the `preg_match` test fails).
   */
  function SplitHeader(line: Bytes): Option<(Bytes, Bytes)> {
    match FirstColon(line)
    case None => None
    case Some(k) => Some((line[..k], SkipSpace(line[k + 1..])))
  }

  /** The invocation id after the header callback has seen `header`, starting from `id`. */
  function RequestIdAfter(id: Bytes, header: Bytes): Bytes {
    match SplitHeader(header)
    case None => id
    case Some((name, value)) => if NamesRequestId(name) then Trim(value) else id
  }

  /** `strtolower($name) === 'lambda-runtime-aws-request-id'`. */
  predicate NamesRequestId(name: Bytes) {
    Lower(name) == RequestIdHeader
  }

  /** The invocation id after the header callback has seen all of `lines`, starting from "". */
  function ParsedRequestId(lines: seq<Bytes>): Bytes {
    if lines == [] then "" else RequestIdAfter(ParsedRequestId(lines[..|lines| - 1]), lines[|lines| - 1])
  }

  /** A header line whose name, compared case-insensitively, is the request-id header. */
  predicate IsRequestIdLine(line: Bytes) {
    var split := SplitHeader(line);
    split.Some? && NamesRequestId(split.value.0)
  }

  /** The id such a line carries: the trimmed text after the colon and its whitespace. */
  function RequestIdValue(line: Bytes): Bytes
    requires IsRequestIdLine(line)
  {
    Trim(SplitHeader(line).value.1)
  }

  /** The header callback sets the id exactly on request-id lines and leaves it alone otherwise. */
  lemma RequestIdAfterCases(id: Bytes, header: Bytes)
    ensures IsRequestIdLine(header) ==> RequestIdAfter(id, header) == RequestIdValue(header)
    ensures !IsRequestIdLine(header) ==> RequestIdAfter(id, header) == id
  {
  }

  /** A line without a colon (a status line, the blank line ending the headers) changes nothing. */
  lemma HeaderWithoutColon(id: Bytes, header: Bytes)
    requires ':' !in header
    ensures RequestIdAfter(id, header) == id
  {
    FirstColonSpec(header);
  }

  /** Skipping whitespace drops exactly a run of whitespace in front of a non-space. */
  lemma {:induction false} SkipSpaceOver(ws: Bytes, rest: Bytes)
    requires forall k :: 0 <= k < |ws| ==> IsPcreSpace(ws[k])
    requires rest == [] || !IsPcreSpace(rest[0])
    ensures SkipSpace(ws + rest) == rest
  {
    if ws != [] {
      assert (ws + rest)[1..] == ws[1..] + rest;
      SkipSpaceOver(ws[1..], rest);
    }
  }

  /** The name, the colon and the whitespace after it are split off a header line as written. */
  lemma SplitHeaderOf(name: Bytes, ws: Bytes, value: Bytes)
    requires ':' !in name
    requires forall k :: 0 <= k < |ws| ==> IsPcreSpace(ws[k])
    requires value == [] || !IsPcreSpace(value[0])
    ensures SplitHeader(name + ":" + ws + value) == Some((name, value))
  {
    var line := name + ":" + ws + value;
    assert line[|name|] == ':';
    FirstColonSpec(line);
    var k := FirstColon(line).value;
    assert k == |name|;
    assert line[..k] == name;
    assert line[k + 1..] == ws + value;
    SkipSpaceOver(ws, value);
  }

  /**
   * A line `name: value` whose name lower-cases to the request-id header
   * sets the id to the trimmed value, whatever the id was.
   */
  lemma RequestIdHeaderSetsId(id: Bytes, name: Bytes, ws: Bytes, value: Bytes)
    requires ':' !in name && Lower(name) == RequestIdHeader
    requires forall k :: 0 <= k < |ws| ==> IsPcreSpace(ws[k])
    requires value == [] || !IsPcreSpace(value[0])
    ensures RequestIdAfter(id, name + ":" + ws + value) == Trim(value)
  {
    SplitHeaderOf(name, ws, value);
  }

  /** A line whose name is any other header leaves the id unchanged. */
  lemma OtherHeaderKeepsId(id: Bytes, name: Bytes, ws: Bytes, value: Bytes)
    requires ':' !in name && Lower(name) != RequestIdHeader
    requires forall k :: 0 <= k < |ws| ==> IsPcreSpace(ws[k])
    requires value == [] || !IsPcreSpace(value[0])
    ensures RequestIdAfter(id, name + ":" + ws + value) == id
  {
    SplitHeaderOf(name, ws, value);
  }

  /**
   * A header name is the request-id header exactly when it has the same
   * length and each byte is the lower-case byte of the constant or its
   * upper-case form: the match ignores ASCII case and nothing else.
   */
  lemma NamesRequestIdIgnoresCase(name: Bytes)
    ensures NamesRequestId(name) <==>
      |name| == |RequestIdHeader| &&
      forall k :: 0 <= k < |name| ==> name[k] == RequestIdHeader[k] || name[k] == UpperByte(RequestIdHeader[k])
  {
    assert forall k :: 0 <= k < |RequestIdHeader| ==> !IsUpper(RequestIdHeader[k]);
    LowerMatches(name, RequestIdHeader);
  }

  lemma RequestIdHeaderNameExample()
    ensures NamesRequestId("Lambda-Runtime-Aws-Request-Id")
  {
  }

  lemma TrimExample()
    ensures Trim("abc-123\r\n") == "abc-123"
  {
    assert TrimLeft("abc-123\r\n") == "abc-123\r\n";
    assert "abc-123\r\n"[..8] == "abc-123\r";
    assert "abc-123\r"[..7] == "abc-123";
  }

  /** The header as the runtime API sends it, in its usual capitalisation. */
  lemma RequestIdHeaderExample()
    ensures RequestIdAfter("", "Lambda-Runtime-Aws-Request-Id: abc-123\r\n") == "abc-123"
  {
    var name: Bytes := "Lambda-Runtime-Aws-Request-Id";
    RequestIdHeaderNameExample();
    assert name + ":" + " " + "abc-123\r\n" == "Lambda-Runtime-Aws-Request-Id: abc-123\r\n";
    RequestIdHeaderSetsId("", name, " ", "abc-123\r\n");
    TrimExample();
  }

  /** After all header lines the id is the one carried by the last request-id line. */
  lemma {:induction false} ParsedRequestIdLastWins(lines: seq<Bytes>, k: nat)
    requires k < |lines| && IsRequestIdLine(lines[k])
    requires forall j :: k < j < |lines| ==> !IsRequestIdLine(lines[j])
    ensures ParsedRequestId(lines) == RequestIdValue(lines[k])
    decreases |lines|
  {
    var last := |lines| - 1;
    var prefix := lines[..last];
    var before := ParsedRequestId(prefix);
    assert ParsedRequestId(lines) == RequestIdAfter(before, lines[last]);
    if k == last {
      RequestIdAfterCases(before, lines[last]);
    } else {
      assert !IsRequestIdLine(lines[last]);
      RequestIdAfterCases(before, lines[last]);
      assert ParsedRequestId(lines) == before;
      assert prefix[k] == lines[k];
      forall j | k < j < |prefix|
        ensures !IsRequestIdLine(prefix[j])
      {
        assert prefix[j] == lines[j];
      }
      ParsedRequestIdLastWins(prefix, k);
    }
  }

  /** Without any request-id line the id stays "". */
  lemma {:induction false} ParsedRequestIdWithoutHeader(lines: seq<Bytes>)
    requires forall j :: 0 <= j < |lines| ==> !IsRequestIdLine(lines[j])
    ensures ParsedRequestId(lines) == ""
    decreases |lines|
  {
    if lines != [] {
      var last := |lines| - 1;
      RequestIdAfterCases(ParsedRequestId(lines[..last]), lines[last]);
      ParsedRequestIdWithoutHeader(lines[..last]);
    }
  }

  // -------------------------------------------------------- write callback

  /** The body after the write callback has seen all of `chunks`, starting from "". */
  function Concat(chunks: seq<Bytes>): Bytes {
    if chunks == [] then "" else Concat(chunks[..|chunks| - 1]) + chunks[|chunks| - 1]
  }

  /** Appending chunk by chunk is concatenation in arrival order. */
  lemma {:induction false} ConcatAppend(a: seq<Bytes>, b: seq<Bytes>)
    ensures Concat(a + b) == Concat(a) + Concat(b)
    decreases |b|
  {
    if b == [] {
      assert a + b == a;
    } else {
      var last := |b| - 1;
      assert (a + b)[..|a + b| - 1] == a + b[..last];
      assert (a + b)[|a + b| - 1] == b[last];
      ConcatAppend(a, b[..last]);
      assert b[..last] + [b[last]] == b;
      calc {
        Concat(a + b);
        Concat(a + b[..last]) + b[last];
        Concat(a) + Concat(b[..last]) + b[last];
        Concat(a) + Concat(b);
      }
    }
  }

  /** The body is empty exactly when every chunk is. */
  lemma {:induction false} ConcatEmpty(chunks: seq<Bytes>)
    ensures Concat(chunks) == "" <==> forall i :: 0 <= i < |chunks| ==> chunks[i] == ""
    decreases |chunks|
  {
    if chunks != [] {
      var last := |chunks| - 1;
      ConcatEmpty(chunks[..last]);
      assert forall i :: 0 <= i < last ==> chunks[..last][i] == chunks[i];
    }
  }

  /** The two callbacks and the variables they capture by reference. */
  class FetchCallbacks {
    /** `$invocationId`, written by the header callback. */
    var invocationId: Bytes
    /** `$body`, appended to by the write callback. */
    var body: Bytes

    constructor ()
      ensures invocationId == "" && body == ""
    {
      invocationId := "";
      body := "";
    }

    /** The header callback: returns the number of bytes it consumed. */
    method OnHeader(header: Bytes) returns (consumed: nat)
      modifies this
      ensures invocationId == RequestIdAfter(old(invocationId), header)
      ensures body == old(body)
      ensures consumed == |header|
    {
      var split := SplitHeader(header);
      if split.None? {
        return |header|;
      }
      var (name, value) := split.value;
      if Lower(name) == RequestIdHeader {
        invocationId := Trim(value);
      }
      return |header|;
    }

    /** The write callback: returns the number of bytes it consumed. */
    method OnChunk(chunk: Bytes) returns (consumed: nat)
      modifies this
      ensures body == old(body) + chunk
      ensures invocationId == old(invocationId)
      ensures consumed == |chunk|
    {
      body := body + chunk;
      return |chunk|;
    }
  }

  // ------------------------------------------------------------ the fetch

  /** The result of a fetch: checked for a transport error, then for the id, then for the body. */
  function FetchResult(transfer: FetchTransfer, decode: Bytes -> Value): Result<Invocation, RuntimeError> {
    var id := ParsedRequestId(transfer.headerLines);
    var body := Concat(transfer.bodyChunks);
    if StringTruthy(transfer.curlError) then Failure(FetchFailed(transfer.curlError))
    else if id == "" then Failure(MissingInvocationId)
    else if body == "" then Failure(EmptyResponse)
    else Success(Invocation(id, decode(body)))
  }

  /**
   * A transport error is reported whatever the headers and body were; a
   * missing id is reported whatever the body was; and an invocation is
   * produced only when none of the three checks fires.
   */
  lemma FetchFailureOrder(transfer: FetchTransfer, decode: Bytes -> Value)
    ensures StringTruthy(transfer.curlError) ==>
      FetchResult(transfer, decode) == Failure(FetchFailed(transfer.curlError))
    ensures !StringTruthy(transfer.curlError) && ParsedRequestId(transfer.headerLines) == "" ==>
      FetchResult(transfer, decode) == Failure(MissingInvocationId)
    ensures !StringTruthy(transfer.curlError) && ParsedRequestId(transfer.headerLines) != ""
            && (forall i :: 0 <= i < |transfer.bodyChunks| ==> transfer.bodyChunks[i] == "") ==>
      FetchResult(transfer, decode) == Failure(EmptyResponse)
  {
    ConcatEmpty(transfer.bodyChunks);
  }

  /**
   * A fetch succeeds exactly when curl reports no error, some request-id
   * line arrived whose trimmed value (for the last such line) is not
   * empty, and some body chunk is not empty; the invocation then carries
   * that value and the decoding of all chunks in order.
   */
  lemma FetchSucceeds(transfer: FetchTransfer, decode: Bytes -> Value, k: nat)
    requires k < |transfer.headerLines| && IsRequestIdLine(transfer.headerLines[k])
    requires forall j :: k < j < |transfer.headerLines| ==> !IsRequestIdLine(transfer.headerLines[j])
    ensures FetchResult(transfer, decode).Success? <==>
      !StringTruthy(transfer.curlError) && RequestIdValue(transfer.headerLines[k]) != ""
      && exists i :: 0 <= i < |transfer.bodyChunks| && transfer.bodyChunks[i] != ""
    ensures FetchResult(transfer, decode).Success? ==>
      FetchResult(transfer, decode).value
        == Invocation(RequestIdValue(transfer.headerLines[k]), decode(Concat(transfer.bodyChunks)))
  {
    ParsedRequestIdLastWins(transfer.headerLines, k);
    ConcatEmpty(transfer.bodyChunks);
  }

  /** Without a request-id line the fetch never produces an invocation. */
  lemma FetchWithoutRequestId(transfer: FetchTransfer, decode: Bytes -> Value)
    requires forall j :: 0 <= j < |transfer.headerLines| ==> !IsRequestIdLine(transfer.headerLines[j])
    ensures FetchResult(transfer, decode).Failure?
    ensures !StringTruthy(transfer.curlError) ==> FetchResult(transfer, decode) == Failure(MissingInvocationId)
  {
    ParsedRequestIdWithoutHeader(transfer.headerLines);
  }

  // ------------------------------------------------------------- postJson

  /** The value of header `name` (compared case-insensitively) among `headers`, if present. */
  function HeaderField(headers: seq<Bytes>, name: Bytes): Option<Bytes> {
    if headers == [] then None
    else
      var split := SplitHeader(headers[0]);
      if split.Some? && Lower(split.value.0) == Lower(name) then Some(split.value.1)
      else HeaderField(headers[1..], name)
  }

  /** `postJson`: encode, give up before any request on failure, else POST and check curl's error. */
  function PostJson(url: Bytes, data: Value, encode: Value -> Result<Bytes, Bytes>, curlError: Bytes): PostResult {
    match encode(data)
    case Failure(jsonError) => PostResult([], Fail(EncodingFailed(jsonError)))
    case Success(json) =>
      var request := Request("POST", url,
                             ["Content-Type: application/json", "Content-Length: " + Show(|json|)], json);
      PostResult([request], if StringTruthy(curlError) then Fail(ApiCallFailed(curlError)) else Pass)
  }

  /** An encoding failure throws before any request is made, so curl's answer plays no part. */
  lemma PostJsonEncodingFailure(url: Bytes, data: Value, encode: Value -> Result<Bytes, Bytes>, curlError: Bytes)
    requires encode(data).Failure?
    ensures PostJson(url, data, encode, curlError).sent == []
    ensures PostJson(url, data, encode, curlError).outcome == Fail(EncodingFailed(encode(data).error))
  {
  }

  lemma SplitContentType()
    ensures SplitHeader("Content-Type: application/json") == Some(("Content-Type", "application/json"))
  {
    assert "Content-Type: application/json" == "Content-Type" + ":" + " " + "application/json";
    SplitHeaderOf("Content-Type", " ", "application/json");
  }

  lemma SplitContentLength(length: Bytes)
    requires length != [] && IsDigits(length)
    ensures SplitHeader("Content-Length: " + length) == Some(("Content-Length", length))
  {
    assert "Content-Length: " == "Content-Length" + ":" + " ";
    SplitHeaderOf("Content-Length", " ", length);
  }

  /** The two headers `postJson` sends, read back by name. */
  lemma PostHeadersFields(length: Bytes)
    requires length != [] && IsDigits(length)
    ensures var headers := ["Content-Type: application/json", "Content-Length: " + length];
      && HeaderField(headers, "Content-Type") == Some("application/json")
      && HeaderField(headers, "Content-Length") == Some(length)
  {
    var contentLength: Bytes := "Content-Length: " + length;
    var headers := ["Content-Type: application/json", contentLength];
    assert HeaderField(headers, "Content-Type") == Some("application/json") by {
      SplitContentType();
    }
    assert HeaderField(headers, "Content-Length") == Some(length) by {
      SplitContentType();
      SplitContentLength(length);
      assert Lower("Content-Type") != Lower("Content-Length") by {
        assert |Lower("Content-Type")| == 12 && |Lower("Content-Length")| == 14;
      }
      assert headers[1..] == [contentLength];
    }
  }

  /**
   * Once encoded, exactly one POST of the encoded data is sent to `url`;
   * its Content-Type is JSON and its Content-Length reads back as the
   * byte length of the body; the call throws exactly when curl reports an
   * error.
   */
  lemma PostJsonSends(url: Bytes, data: Value, encode: Value -> Result<Bytes, Bytes>, curlError: Bytes)
    requires encode(data).Success?
    ensures var p := PostJson(url, data, encode, curlError);
      && |p.sent| == 1
      && p.sent[0].verb == "POST" && p.sent[0].url == url && p.sent[0].body == encode(data).value
      && HeaderField(p.sent[0].headers, "Content-Type") == Some("application/json")
      && HeaderField(p.sent[0].headers, "Content-Length").Some?
      && IsDigits(HeaderField(p.sent[0].headers, "Content-Length").value)
      && Parse(HeaderField(p.sent[0].headers, "Content-Length").value) == |p.sent[0].body|
      && (p.outcome.Fail? <==> StringTruthy(curlError))
      && (p.outcome.Fail? ==> p.outcome.error == ApiCallFailed(curlError))
  {
    var json := encode(data).value;
    ShowDigits(|json|);
    PostHeadersFields(Show(|json|));
    ParseShow(|json|);
  }

  /** The body of a failure report: `errorMessage` then `errorType`. */
  function FailurePayload(error: Throwable): Value {
    Array([(StrKey("errorMessage"), Str(error.message)), (StrKey("errorType"), Str(error.className))])
  }

  /**
   * The payload is an array of exactly two entries, `errorMessage` first
   * and `errorType` second; it holds the message under `errorMessage`, the
   * class name under `errorType`, and no other key.
   */
  lemma FailurePayloadFields(error: Throwable, key: Key)
    ensures FailurePayload(error).Array? && |FailurePayload(error).entries| == 2
    ensures FailurePayload(error).entries[0].0 == StrKey("errorMessage")
    ensures FailurePayload(error).entries[1].0 == StrKey("errorType")
    ensures Lookup(FailurePayload(error).entries, StrKey("errorMessage")) == Some(Str(error.message))
    ensures Lookup(FailurePayload(error).entries, StrKey("errorType")) == Some(Str(error.className))
    ensures key != StrKey("errorMessage") && key != StrKey("errorType") ==>
      Lookup(FailurePayload(error).entries, key) == None
  {
    assert StrKey("errorType") != StrKey("errorMessage") by {
      assert "errorType"[5] != "errorMessage"[5];
    }
    var entries := FailurePayload(error).entries;
    assert entries[1..] == [(StrKey("errorType"), Str(error.className))];
  }

  /** Each exception message names its failure: distinct errors never share a message. */
  lemma MessageDeterminesError(e1: RuntimeError, e2: RuntimeError)
    ensures e1.Message() == e2.Message() ==> e1 == e2
  {
    if e1.Message() == e2.Message() {
      MessageMarks(e1);
      MessageMarks(e2);
      var m := e1.Message();
      match e1
      case FetchFailed(x) =>
        assert x == m[|FetchFailedPrefix|..] == e2.curlError;
      case EncodingFailed(x) =>
        assert x == m[|EncodingFailedPrefix|..] == e2.jsonError;
      case ApiCallFailed(x) =>
        assert x == m[|ApiCallFailedPrefix|..] == e2.curlError;
      case _ =>
    }
  }

  /** The bytes at positions 1, 7 and 10 of a message tell the five errors apart. */
  lemma MessageMarks(e: RuntimeError)
    ensures |e.Message()| > 10
    ensures e.FetchFailed? ==> e.Message()[1] == 'a' && e.Message()[7] == 't' && e.Message()[10] == 'f'
    ensures e.MissingInvocationId? ==> e.Message()[1] == 'a' && e.Message()[7] == 't' && e.Message()[10] == 'd'
    ensures e.EmptyResponse? ==> e.Message()[1] == 'm'
    ensures e.EncodingFailed? ==> e.Message()[1] == 'a' && e.Message()[7] == 'e'
    ensures e.ApiCallFailed? ==> e.Message()[1] == 'r'
  {
    MessageTextMarks();
  }

  lemma MessageTextMarks()
    ensures |FetchFailedPrefix| > 10 && FetchFailedPrefix[1] == 'a' && FetchFailedPrefix[7] == 't' && FetchFailedPrefix[10] == 'f'
    ensures |MissingInvocationIdText| > 10 && MissingInvocationIdText[1] == 'a'
    ensures MissingInvocationIdText[7] == 't' && MissingInvocationIdText[10] == 'd'
    ensures |EmptyResponseText| > 10 && EmptyResponseText[1] == 'm'
    ensures |EncodingFailedPrefix| > 10 && EncodingFailedPrefix[1] == 'a' && EncodingFailedPrefix[7] == 'e'
    ensures |ApiCallFailedPrefix| > 10 && ApiCallFailedPrefix[1] == 'r'
  {
  }

  /**
   * Reporting one of the client's own exceptions: the payload carries its
   * message under `errorMessage` and `Exception` under `errorType`.
   */
  lemma RuntimeErrorPayload(e: RuntimeError)
    ensures Lookup(FailurePayload(e.AsThrowable()).entries, StrKey("errorMessage")) == Some(Str(e.Message()))
    ensures Lookup(FailurePayload(e.AsThrowable()).entries, StrKey("errorType")) == Some(Str("Exception"))
  {
    FailurePayloadFields(e.AsThrowable(), StrKey("errorType"));
  }

  // --------------------------------------------------------------- client

  class LambdaRuntime {
    /** The host and port of the runtime API, as `AWS_LAMBDA_RUNTIME_API` gives it. */
    const apiUrl: Bytes

    constructor (apiUrl: Bytes)
      ensures this.apiUrl == apiUrl
    {
      this.apiUrl := apiUrl;
    }

    /**
     * `fromEnvironmentVariable`: `getenv` yields no string when the variable
     * is unset, and the string-typed constructor then throws a TypeError.
     */
    static method FromEnvironmentVariable(env: Option<Bytes>) returns (r: Option<LambdaRuntime>)
      ensures r.None? <==> env.None?
      ensures r.Some? ==> fresh(r.value) && r.value.apiUrl == env.value
    {
      if env.None? {
        return None;
      }
      var runtime := new LambdaRuntime(env.value);
      return Some(runtime);
    }

    /** The part every runtime API URL shares. */
    function InvocationBase(): Bytes {
      "http://" + apiUrl + "/2018-06-01/runtime/invocation/"
    }

    function NextUrl(): Bytes {
      "http://" + apiUrl + "/2018-06-01/runtime/invocation/next"
    }

    function ResponseUrl(invocationId: Bytes): Bytes {
      "http://" + apiUrl + "/2018-06-01/runtime/invocation/" + invocationId + "/response"
    }

    function ErrorUrl(invocationId: Bytes): Bytes {
      "http://" + apiUrl + "/2018-06-01/runtime/invocation/" + invocationId + "/error"
    }

    /** The next-invocation URL is neither a response URL nor an error URL, whatever the id. */
    lemma NextUrlIsNotInvocationUrl(invocationId: Bytes)
      ensures NextUrl() != ResponseUrl(invocationId)
      ensures NextUrl() != ErrorUrl(invocationId)
    {
      var n := NextUrl();
      var r := ResponseUrl(invocationId);
      var e := ErrorUrl(invocationId);
      assert n[|n| - 1] == 't';
      assert r[|r| - 1] == 'e';
      assert e[|e| - 1] == 'r';
    }

    /** The response and error URLs are the shared base, the id as it is (not escaped), and a suffix. */
    lemma UrlShapes(invocationId: Bytes)
      ensures ResponseUrl(invocationId) == InvocationBase() + invocationId + "/response"
      ensures ErrorUrl(invocationId) == InvocationBase() + invocationId + "/error"
    {
    }

    /** Distinct ids give distinct response URLs and distinct error URLs. */
    lemma UrlsDetermineId(id1: Bytes, id2: Bytes)
      ensures ResponseUrl(id1) == ResponseUrl(id2) ==> id1 == id2
      ensures ErrorUrl(id1) == ErrorUrl(id2) ==> id1 == id2
    {
      var base := InvocationBase();
      if ResponseUrl(id1) == ResponseUrl(id2) {
        UrlShapes(id1);
        UrlShapes(id2);
        assert id1 == ResponseUrl(id1)[|base|..|ResponseUrl(id1)| - 9];
      }
      if ErrorUrl(id1) == ErrorUrl(id2) {
        UrlShapes(id1);
        UrlShapes(id2);
        assert id1 == ErrorUrl(id1)[|base|..|ErrorUrl(id1)| - 6];
      }
    }

    /** A response URL is never an error URL, whatever the two ids are. */
    lemma ResponseUrlIsNotErrorUrl(id1: Bytes, id2: Bytes)
      ensures ResponseUrl(id1) != ErrorUrl(id2)
    {
      var r := ResponseUrl(id1);
      var e := ErrorUrl(id2);
      assert r[|r| - 2] == 's';
      assert e[|e| - 2] == 'o';
    }

    /**
     * `waitNextInvocation`: a GET of the next-invocation URL, the header
     * and write callbacks run over what curl delivers, then the three
     * checks in order. An invocation exists only on success.
     */
    method WaitNextInvocation(transfer: FetchTransfer, decode: Bytes -> Value)
      returns (request: Request, r: Result<Invocation, RuntimeError>)
      ensures request == Request("GET", NextUrl(), [], "")
      ensures r == FetchResult(transfer, decode)
      ensures r.Success? ==> r.value.id != "" && r.value.id == ParsedRequestId(transfer.headerLines)
      ensures r.Success? ==> r.value.event == decode(Concat(transfer.bodyChunks))
    {
      request := Request("GET", NextUrl(), [], "");
      var callbacks := new FetchCallbacks();
      var lines := transfer.headerLines;
      var i := 0;
      while i < |lines|
        invariant 0 <= i <= |lines|
        invariant callbacks.invocationId == ParsedRequestId(lines[..i])
        invariant callbacks.body == ""
      {
        var consumed := callbacks.OnHeader(lines[i]);
        assert lines[..i + 1][..i] == lines[..i];
        i := i + 1;
      }
      assert lines[..i] == lines;
      var chunks := transfer.bodyChunks;
      var j := 0;
      while j < |chunks|
        invariant 0 <= j <= |chunks|
        invariant callbacks.body == Concat(chunks[..j])
        invariant callbacks.invocationId == ParsedRequestId(lines)
      {
        var consumed := callbacks.OnChunk(chunks[j]);
        assert chunks[..j + 1][..j] == chunks[..j];
        j := j + 1;
      }
      assert chunks[..j] == chunks;
      if StringTruthy(transfer.curlError) {
        return request, Failure(FetchFailed(transfer.curlError));
      }
      if callbacks.invocationId == "" {
        return request, Failure(MissingInvocationId);
      }
      if callbacks.body == "" {
        return request, Failure(EmptyResponse);
      }
      r := Success(Invocation(callbacks.invocationId, decode(callbacks.body)));
    }

    /** `sendResponse`: the encoded result is POSTed to the invocation's response URL. */
    function SendResponse(invocationId: Bytes, responseData: Value, encode: Value -> Result<Bytes, Bytes>,
                          curlError: Bytes): PostResult
    {
      PostJson(ResponseUrl(invocationId), responseData, encode, curlError)
    }

    /** `signalFailure`: the failure payload is POSTed to the invocation's error URL. */
    function SignalFailure(invocationId: Bytes, error: Throwable, encode: Value -> Result<Bytes, Bytes>,
                           curlError: Bytes): PostResult
    {
      PostJson(ErrorUrl(invocationId), FailurePayload(error), encode, curlError)
    }

    /**
     * A response that encodes is sent once, to the response URL of that
     * invocation, with the encoded result as its body; one that does not
     * encode is not sent at all.
     */
    lemma SendResponseSends(invocationId: Bytes, responseData: Value, encode: Value -> Result<Bytes, Bytes>,
                            curlError: Bytes)
      ensures var p := SendResponse(invocationId, responseData, encode, curlError);
        && (encode(responseData).Failure? ==>
              p.sent == [] && p.outcome == Fail(EncodingFailed(encode(responseData).error)))
        && (encode(responseData).Success? ==>
              |p.sent| == 1 && p.sent[0].verb == "POST" && p.sent[0].url == ResponseUrl(invocationId)
              && p.sent[0].body == encode(responseData).value
              && (p.outcome.Fail? <==> StringTruthy(curlError))
              && (p.outcome.Fail? ==> p.outcome.error == ApiCallFailed(curlError)))
    {
      if encode(responseData).Success? {
        PostJsonSends(ResponseUrl(invocationId), responseData, encode, curlError);
      }
    }

    /**
     * A failure report is sent once, to the error URL of that invocation,
     * with the encoded failure payload as its body, unless the payload
     * does not encode.
     */
    lemma SignalFailureSends(invocationId: Bytes, error: Throwable, encode: Value -> Result<Bytes, Bytes>,
                             curlError: Bytes)
      ensures var p := SignalFailure(invocationId, error, encode, curlError);
        && (encode(FailurePayload(error)).Failure? ==>
              p.sent == [] && p.outcome == Fail(EncodingFailed(encode(FailurePayload(error)).error)))
        && (encode(FailurePayload(error)).Success? ==>
              |p.sent| == 1 && p.sent[0].verb == "POST" && p.sent[0].url == ErrorUrl(invocationId)
              && p.sent[0].body == encode(FailurePayload(error)).value
              && (p.outcome.Fail? <==> StringTruthy(curlError))
              && (p.outcome.Fail? ==> p.outcome.error == ApiCallFailed(curlError)))
    {
      if encode(FailurePayload(error)).Success? {
        PostJsonSends(ErrorUrl(invocationId), FailurePayload(error), encode, curlError);
      }
    }
  }
}
