# Bref Lambda runtime core, modelled in Dafny

This project models the two pieces of the Bref PHP runtime for AWS Lambda that hold the runtime's own logic.

- **`LambdaRuntime`**, the client of the Lambda Runtime API.
  - It fetches the next invocation with a blocking GET. A header callback picks the invocation id out of the `Lambda-Runtime-Aws-Request-Id` response header. A write callback collects the body.
  - After the fetch it checks three things, in order: a transport error, an empty id, an empty body. Any of the three throws.
  - It reports a result by POSTing JSON to `…/{id}/response`. It reports a failure by POSTing `{errorMessage, errorType}` to `…/{id}/error`.
  - `postJson` refuses to send anything when JSON encoding fails. Otherwise it sends a `Content-Length` equal to the byte length of the encoded body.
- **The function bootstrap script**.
  - It builds the handler path and checks that the handler file exists and returns something usable. Either failure goes to `failInitialization`.
  - It then runs a counter loop bounded by `BREF_LOOP_MAX`. The counter is increased before each comparison, so the script processes exactly that many events and then exits with status 0.

Modules:

- `Wrappers` (`wrappers.dfy`): `Option`, `Result` and `Outcome`. These replace PHP's exceptions.
- `PhpStrings` (`php_strings.dfy`): PHP byte strings and the PHP built-ins the core relies on.
  - `strtolower`, `trim` and the PCRE class `\s`.
  - Integer-to-string conversion, and reading decimal text back.
- `PhpValues` (`php_values.dfy`): PHP values and PHP truthiness. Truthiness covers `!`, `?:` and `if (string)`.
- `Runtime` (`lambda_runtime.dfy`): `src/Runtime/LambdaRuntime.php`.
  - Class `LambdaRuntime` holds the immutable `apiUrl`.
  - Class `FetchCallbacks` holds the two variables the curl callbacks capture by reference, and the two callbacks.
  - Pure functions build the URLs, the failure payload and `postJson`'s requests.
- `Bootstrap` (`bootstrap.dfy`): `runtime/layers/function/bootstrap.php`. Its method `Run` contains the bounded loop.

Inputs that stand for the outside world:

- A fetch is a `FetchTransfer` value. It holds the header lines and body chunks curl hands to the callbacks, plus what `curl_error` returns afterwards (`""` when there is no error).
- A POST sees only the `curl_error` text.
- `json_encode` is a parameter `Value -> Result<Bytes, Bytes>`. Its failure carries `json_last_error_msg()`.
- `json_decode` is a parameter `Bytes -> Value`. The source does not check its result, so the model adds no error for it.
- In the bootstrap, `getenv` results are `Option<Bytes>`. `is_file` and `require` are function parameters.
- `failInitialization` and `processNextEvent` are recorded, in order, in the trace that `Run` returns.

Behaviour of the code worth knowing, which the model keeps:

- `BREF_LOOP_MAX` is not clamped to at least 1. Only an unset, empty or `"0"` value falls back to 1. A negative value such as `"-3"`, or `"00"`, gives a limit below 1, and the script exits before processing any event (`Bootstrap.LoopMaxZeroPadded`, `Bootstrap.Run`).
- The handler is not checked to be callable or to be a handler object. The bootstrap only checks that the file exists and that `require` returns a truthy value.
- The invocation id is tested after `trim`, so a request-id header whose value is only whitespace counts as missing, like an absent header.
- The transport-error test is PHP string truthiness. A `curl_error` text of `"0"` would read as "no error".
- Only the fetch sets `CURLOPT_FAILONERROR` (`src/Runtime/LambdaRuntime.php:50`). The two POSTs of `postJson` do not, so when the runtime API answers a response or error report with an error status (for example 413 for an oversized payload), `curl_error` stays empty and the call returns normally: the rejection is silently lost.

## Model

| member | source | states |
|---|---|---|
| `Runtime.FetchCallbacks.constructor` | src/Runtime/LambdaRuntime.php:53-67 | both captured variables start as the empty string |
| `Runtime.FetchCallbacks.OnHeader` | src/Runtime/LambdaRuntime.php:54-64 | the new id is `RequestIdAfter(old id, line)`, the body is untouched, and the return value is the line's byte length |
| `Runtime.FetchCallbacks.OnChunk` | src/Runtime/LambdaRuntime.php:68-72 | the body becomes the old body followed by the chunk, the id is untouched, and the return value is the chunk's byte length |
| `Runtime.HeaderWithoutColon` | src/Runtime/LambdaRuntime.php:55-57 | a header line with no `:` leaves the id as it was |
| `Runtime.FirstColonSpec` | src/Runtime/LambdaRuntime.php:55-58 | the split point is found exactly when the line has a colon, and it is the leftmost colon |
| `Runtime.SplitHeaderOf` | src/Runtime/LambdaRuntime.php:58 | `name:` followed by whitespace and then a value splits into that name and that value |
| `Runtime.RequestIdHeaderSetsId` | src/Runtime/LambdaRuntime.php:58-61 | any line whose name lower-cases to `lambda-runtime-aws-request-id` sets the id to the trimmed text after the colon and its whitespace, whatever the id was |
| `Runtime.OtherHeaderKeepsId` | src/Runtime/LambdaRuntime.php:58-61 | a line with any other header name never changes the id |
| `Runtime.NamesRequestIdIgnoresCase` | src/Runtime/LambdaRuntime.php:59 | a header name is the request-id header exactly when it has the same length and each byte is the lower-case constant's byte or its upper-case form: only ASCII case is ignored |
| `Runtime.RequestIdHeaderNameExample` | src/Runtime/LambdaRuntime.php:59 | the capitalised header name `Lambda-Runtime-Aws-Request-Id` matches, because the match ignores case |
| `Runtime.RequestIdHeaderExample` | src/Runtime/LambdaRuntime.php:54-64 | the line `Lambda-Runtime-Aws-Request-Id: abc-123\r\n` yields the id `abc-123` |
| `Runtime.ParsedRequestIdLastWins` | src/Runtime/LambdaRuntime.php:54-64 | after all header lines, the id is the value of the last request-id line |
| `Runtime.ParsedRequestIdWithoutHeader` | src/Runtime/LambdaRuntime.php:53-64 | when no request-id line arrives, the id stays `''` |
| `Runtime.ConcatAppend` | src/Runtime/LambdaRuntime.php:67-72 | appending chunk by chunk is concatenation in arrival order, and it splits over any split of the chunks |
| `Runtime.ConcatEmpty` | src/Runtime/LambdaRuntime.php:81 | the body is empty exactly when every chunk is empty |
| `Runtime.FetchFailureOrder` | src/Runtime/LambdaRuntime.php:74-83 | a transport error takes precedence over everything else, a missing id over the body, and an empty body fails last |
| `Runtime.FetchSucceeds` | src/Runtime/LambdaRuntime.php:74-88 | a fetch succeeds exactly when curl reports no error, the last request-id value is non-empty and some chunk is non-empty; the Invocation then holds that id and the decoding of the whole body |
| `Runtime.FetchWithoutRequestId` | src/Runtime/LambdaRuntime.php:78-80 | without a request-id header no Invocation is produced; if curl reports no error, the reason is the missing id |
| `Runtime.LambdaRuntime.WaitNextInvocation` | src/Runtime/LambdaRuntime.php:46-89 | sends one GET to the next-invocation URL; running both callbacks over the transfer and then the three checks gives `FetchResult`; on success the id is non-empty and equals the parsed header, and the event is the decoding of the concatenated chunks |
| `Runtime.LambdaRuntime.constructor` | src/Runtime/LambdaRuntime.php:34-37 | the client keeps the API address it is given |
| `Runtime.LambdaRuntime.FromEnvironmentVariable` | src/Runtime/LambdaRuntime.php:29-32 | returns a fresh client with the variable's value as its address, or none when the variable is unset |
| `Runtime.LambdaRuntime.NextUrlIsNotInvocationUrl` | src/Runtime/LambdaRuntime.php:48 | the next-invocation URL is never the response URL or the error URL of any invocation id |
| `Runtime.LambdaRuntime.UrlsDetermineId` | src/Runtime/LambdaRuntime.php:98-107 | distinct ids give distinct response URLs and distinct error URLs |
| `Runtime.LambdaRuntime.ResponseUrlIsNotErrorUrl` | src/Runtime/LambdaRuntime.php:98-107 | a response URL never equals an error URL |
| `Runtime.FailurePayloadFields` | src/Runtime/LambdaRuntime.php:108-111 | the failure body is a two-entry array: `errorMessage` maps to the message, then `errorType` maps to the class name, and there is no other key |
| `Runtime.RuntimeErrorPayload` | src/Runtime/LambdaRuntime.php:108-111 | reporting one of the client's own exceptions puts its message under `errorMessage` and `Exception` under `errorType` |
| `Runtime.MessageDeterminesError` | src/Runtime/LambdaRuntime.php:75-135 | the five exception messages of the client are distinct, and each carries the curl or JSON error text it was built from, which can be read back |
| `Runtime.PostJsonEncodingFailure` | src/Runtime/LambdaRuntime.php:119-122 | an encoding failure throws before any request is sent, whatever curl would have said |
| `Runtime.PostHeadersFields` | src/Runtime/LambdaRuntime.php:128-131 | reading the two sent header lines back by name gives `application/json` and the length text |
| `Runtime.PostJsonSends` | src/Runtime/LambdaRuntime.php:119-136 | once encoded, exactly one POST of the encoded body is sent to the URL; its Content-Length reads back as the body's byte length; the call throws exactly when curl reports an error |
| `Runtime.LambdaRuntime.SendResponseSends` | src/Runtime/LambdaRuntime.php:96-100 | a result is sent as one POST to this invocation's response URL with its encoding as the body, and the call throws `ApiCallFailed` exactly when curl reports an error; a result that does not encode is not sent and the call throws the encoding error |
| `Runtime.LambdaRuntime.SignalFailureSends` | src/Runtime/LambdaRuntime.php:105-112 | a failure is sent as one POST to this invocation's error URL with the encoded payload as the body, and the call throws `ApiCallFailed` exactly when curl reports an error; a payload that does not encode is not sent and the call throws the encoding error |
| `PhpStrings.SkipSpaceShape` | src/Runtime/LambdaRuntime.php:58 | `:\s*` consumes the whole run of whitespace after the colon and stops at a non-space |
| `PhpStrings.TrimLeftShape` | src/Runtime/LambdaRuntime.php:60 | the left half of `trim` drops exactly the leading run of trim bytes |
| `PhpStrings.TrimRightShape` | src/Runtime/LambdaRuntime.php:60 | the right half of `trim` drops exactly the trailing run of trim bytes |
| `PhpStrings.TrimIsSlice` | src/Runtime/LambdaRuntime.php:60 | `trim` keeps a contiguous slice, drops only trim bytes around it, and the slice neither starts nor ends with one |
| `PhpStrings.TrimOfTrimmed` | src/Runtime/LambdaRuntime.php:60 | a value with no trim byte at either end is kept whole |
| `PhpStrings.LowerMatches` | src/Runtime/LambdaRuntime.php:59 | `strtolower` of a string equals a lower-case text exactly when the string spells that text in any mix of ASCII cases |
| `PhpStrings.ShowDigits` | src/Runtime/LambdaRuntime.php:130 | `strlen` turned into a string is a non-empty run of digits with no leading zero |
| `PhpStrings.ParseShow` | src/Runtime/LambdaRuntime.php:130 | reading back the decimal text of a length gives the length |
| `PhpStrings.ShowInjective` | src/Runtime/LambdaRuntime.php:130 | distinct lengths give distinct Content-Length texts |
| `PhpValues.Lookup` | src/Runtime/LambdaRuntime.php:108-111 | looking up a key in an array finds nothing exactly when no entry has that key, and otherwise finds the value of an entry with that key |
| `Bootstrap.HandlerFileShape` | runtime/layers/function/bootstrap.php:15 | the handler path is the app root, `/` and the `_HANDLER` value, unchanged; an unset root reads as empty |
| `Bootstrap.LoopMaxDefault` | runtime/layers/function/bootstrap.php:27 | an unset, empty or `"0"` `BREF_LOOP_MAX` gives the limit 1 |
| `Bootstrap.LoopMaxOfNumber` | runtime/layers/function/bootstrap.php:27 | a limit written as the number n is n, except that 0 means 1 |
| `Bootstrap.LoopMaxZeroPadded` | runtime/layers/function/bootstrap.php:27 | `"00"` is a true string, so it gives the limit 0 and not 1 |
| `Bootstrap.Run` | runtime/layers/function/bootstrap.php:15-34 | a missing handler file, then a falsy handler, each ends the run with a single `failInitialization` call and no event processed; otherwise `processNextEvent` is called exactly max(0, limit) times with the loaded handler, the counter ends one above that, and the exit status is 0 |

## Left out

- curl itself is not modelled. That covers `curl_init`/`curl_exec`/`curl_close`, redirects (`CURLOPT_FOLLOWLOCATION`), HTTP error mapping (`CURLOPT_FAILONERROR`) and blocking. A transfer is an input value. For the fetch, which sets `CURLOPT_FAILONERROR`, both transport failures and HTTP error statuses show up as the `curl_error` text. For a POST, the model's `curlError` stands only for curl-level failures: an HTTP error status leaves `curl_error` empty and is not modelled as a separate input.
- Header callbacks and write callbacks are modelled as running in two separate passes. The two callbacks write disjoint variables, so interleaving them yields the same final state. curl's abort when a callback returns a short count cannot happen, because both callbacks always return the full length.
- `json_encode` and `json_decode` are PHP built-ins. They are parameters, so JSON round-trips are not part of this model.
- The curl handle parameter `$ch` of both callbacks is not modelled; the callbacks never use it.
- `Invocation` is not part of this model. It is a datatype holding the id and the decoded event, without a back-reference to the client.
- `failInitialization` is not part of this model. `Bootstrap.Run` records the call and ends the run there, treating an initialization failure as fatal. If the call returned instead, `require` of a missing file would be fatal, and a falsy handler would enter the loop.
- `processNextEvent` is not part of this model. Each call is assumed to return. An uncaught exception from it would end the process early, and that is not modelled.
- Bootstrap process plumbing is not part of `Bootstrap.Run`: `ini_set`, `error_reporting`, the `vendor/autoload.php` require, the construction of the runtime client at line 13, and the `exit` itself, which is modelled as the returned `Ending`.
- Bootstrap.LoopMax: covers only values of `BREF_LOOP_MAX` that are empty or an optionally negative decimal integer. PHP's loose comparison of an int with other strings such as `"abc"` or `"2.5"` is not modelled.
- Bootstrap.Run: requires the same integer form of `BREF_LOOP_MAX`, for the same reason.
- PHP floats are absent from `PhpValues.Value`, so a float handler value (a handler file ending in `return 0.0;`) or a float in a decoded event cannot be represented. Both outcomes of the `! $handler` test are still reachable, because `load` is unconstrained and may return a falsy or a truthy value.
- `PhpStrings.Byte` is `char`. Each character stands for one byte of a PHP string, and the bound of 255 is not enforced. No operation of the core depends on it.
- `strtolower` is modelled as ASCII-only, which is its behaviour since PHP 8.2.
