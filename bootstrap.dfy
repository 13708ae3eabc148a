/**
 * The function runtime's bootstrap script: it builds the handler path,
 * checks that the handler file exists and returns a usable handler, then
 * processes events until the configured number of invocations is spent
 * and exits with status 0.
 *
 * The environment and the file system are parameters. The two runtime
 * operations the script calls, `failInitialization` and
 * `processNextEvent`, are not visible here: each call is recorded, in
 * order, in the trace the run returns.
 */
module Bootstrap {
  import opened Wrappers
  import opened PhpStrings
  import opened PhpValues

  /** A call the script makes into the runtime. */
  datatype Call = FailInitialization(message: Bytes) | ProcessNextEvent(handler: Value)

  /** How a run ends: `exit($status)`, or inside `failInitialization`. */
  datatype Ending = Exit(status: int) | InitializationFailed

  /** A `getenv` result used as a string: an unset variable (`false`) reads as "". */
  function EnvText(env: Option<Bytes>): Bytes {
    match env
    case None => ""
    case Some(s) => s
  }

  /** `$appRoot . '/' . getenv('_HANDLER')`. */
  function HandlerFile(appRoot: Option<Bytes>, handler: Option<Bytes>): Bytes {
    EnvText(appRoot) + "/" + EnvText(handler)
  }

  function MissingHandlerMessage(handlerFile: Bytes): Bytes {
    "Handler `" + handlerFile + "` doesn't exist"
  }

  function InvalidHandlerMessage(handlerFile: Bytes): Bytes {
    "Handler `" + handlerFile + "` must return a function or Handler object"
  }

  /** The handler path is the application root, a slash, and the handler setting, verbatim. */
  lemma HandlerFileShape(appRoot: Bytes, handler: Bytes)
    ensures HandlerFile(Some(appRoot), Some(handler)) == appRoot + "/" + handler
    ensures HandlerFile(Some(appRoot), Some(handler))[..|appRoot|] == appRoot
    ensures HandlerFile(Some(appRoot), Some(handler))[|appRoot| + 1..] == handler
    ensures HandlerFile(None, Some(handler)) == "/" + handler
  {
  }

  // ------------------------------------------------------- BREF_LOOP_MAX

  /** The values of `BREF_LOOP_MAX` the model covers: empty, or an optionally negative decimal integer. */
  predicate IsIntegerText(s: Bytes) {
    s == "" || (s != "" && IsDigits(s)) || (|s| >= 2 && s[0] == '-' && IsDigits(s[1..]))
  }

  /** The integer an integer text denotes. */
  function IntegerValue(s: Bytes): int
    requires IsIntegerText(s) && s != ""
  {
    if s[0] == '-' then -(Parse(s[1..]) as int) else Parse(s)
  }

  /** `getenv('BREF_LOOP_MAX') ?: 1`: unset, "" and "0" all fall back to 1. */
  function LoopMax(env: Option<Bytes>): int
    requires env.Some? ==> IsIntegerText(env.value)
  {
    if env.None? || !StringTruthy(env.value) then 1 else IntegerValue(env.value)
  }

  /** The fallback applies to an unset, an empty and a "0" setting alike. */
  lemma LoopMaxDefault(env: Option<Bytes>)
    requires env == None || env == Some("") || env == Some("0")
    ensures LoopMax(env) == 1
  {
  }

  /** A setting written as a number is that number, except that "0" means 1. */
  lemma LoopMaxOfNumber(n: nat)
    ensures IsIntegerText(Show(n))
    ensures LoopMax(Some(Show(n))) == if n == 0 then 1 else n
  {
    ShowDigits(n);
    ParseShow(n);
    if n != 0 {
      assert Show(0) == "0";
      if Show(n) == "0" {
        ShowInjective(n, 0);
      }
      assert Show(n)[0] != '-';
    }
  }

  /** Only the exact text "0" falls back: "00" is a true string whose value is 0. */
  lemma LoopMaxZeroPadded()
    ensures LoopMax(Some("00")) == 0
  {
    assert StringTruthy("00") && IsDigits("00");
    assert "00"[..1] == "0" && "0"[..0] == "";
  }

  // ------------------------------------------------------------ the run

  /** The number of events a run processes for a given limit: the limit, or none if it is not positive. */
  function EventBudget(loopMax: int): nat {
    if loopMax < 0 then 0 else loopMax
  }

  /**
   * The whole script. `isFile` and `load` stand for `is_file` and
   * `require` on the handler path. The handler checks come first and each
   * failure ends the run in `failInitialization` before any event is
   * processed; after them the counter is increased before it is compared
   * with the limit, so exactly `EventBudget(LoopMax(...))` events are
   * processed, the counter ends one above that number, and the script
   * exits with status 0.
   */
  method Run(appRoot: Option<Bytes>, handlerSetting: Option<Bytes>, loopMaxEnv: Option<Bytes>,
             isFile: Bytes -> bool, load: Bytes -> Value)
    returns (calls: seq<Call>, ending: Ending, loops: int)
    requires loopMaxEnv.Some? ==> IsIntegerText(loopMaxEnv.value)
    ensures var file := HandlerFile(appRoot, handlerSetting);
      !isFile(file) ==> calls == [FailInitialization(MissingHandlerMessage(file))] && ending == InitializationFailed
    ensures var file := HandlerFile(appRoot, handlerSetting);
      isFile(file) && !Truthy(load(file)) ==>
        calls == [FailInitialization(InvalidHandlerMessage(file))] && ending == InitializationFailed
    ensures var file := HandlerFile(appRoot, handlerSetting);
      isFile(file) && Truthy(load(file)) ==>
        && ending == Exit(0)
        && |calls| == EventBudget(LoopMax(loopMaxEnv))
        && (forall i :: 0 <= i < |calls| ==> calls[i] == ProcessNextEvent(load(file)))
        && loops == |calls| + 1
  {
    var handlerFile := HandlerFile(appRoot, handlerSetting);
    if !isFile(handlerFile) {
      return [FailInitialization(MissingHandlerMessage(handlerFile))], InitializationFailed, 0;
    }
    var handler := load(handlerFile);
    if !Truthy(handler) {
      return [FailInitialization(InvalidHandlerMessage(handlerFile))], InitializationFailed, 0;
    }
    var loopMax := LoopMax(loopMaxEnv);
    loops := 0;
    calls := [];
    while true
      invariant 0 <= loops <= EventBudget(loopMax)
      invariant |calls| == loops
      invariant forall i :: 0 <= i < |calls| ==> calls[i] == ProcessNextEvent(handler)
      decreases EventBudget(loopMax) - loops
    {
      loops := loops + 1;
      if loops > loopMax {
        return calls, Exit(0), loops;
      }
      calls := calls + [ProcessNextEvent(handler)];
    }
  }
}
