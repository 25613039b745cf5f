/**
 * The JSONP modules: `getJsonpModule` of src/modules/jsonap.js and the sample module of
 * samples/express-sample/modules/jsonap.js. Both wrap the previous response's content in a call
 * `callback(content)` and set the JavaScript content type.
 */
module Jsonp {
  import opened Wrappers
  import opened Js
  import opened ModuleCheck
  import opened Responses
  import opened Settle
  import opened Chain
  import opened ChainResponse

  const JsonpContentType: string := "application/x-javascript; charset=utf-8"

  // ---------------------------------------------------------------- getJsonpModule

  /**
   * The module `getJsonpModule(callbackParams, priority)` returns: named "jsonp", closed, with
   * priority 5 when none is passed.
   */
  function JsonpModuleFields(priority: JsValue): (f: ModuleFields)
    ensures f.name == String("jsonp") && f.isOpen == Boolean(false)
    ensures priority.Undefined? ==> f.priority == Number(5)
    ensures !priority.Undefined? ==> f.priority == priority
    ensures f.isMatch.Function? && f.getResponse.Function?
  {
    ModuleFields(String("jsonp"), Boolean(false), if priority.Undefined? then Number(5) else priority,
                 Function("isMatch"), Function("getResponse"))
  }

  /** The loader drops the module unless the caller opens it. */
  lemma JsonpModuleIsClosed(priority: JsValue)
    ensures !Keeps(JsonpModuleFields(priority))
  {
    KeepsMeans(JsonpModuleFields(priority));
  }

  /** `callbackParams.filter(param => query[param])[0]`: the first parameter with a truthy value. */
  function FirstCallbackParam(callbackParams: seq<string>, query: Query): (r: Option<string>)
    ensures r.None? <==> forall i :: 0 <= i < |callbackParams| ==> !Truthy(Param(query, callbackParams[i]))
    ensures r.Some? ==>
      exists i :: (0 <= i < |callbackParams| && callbackParams[i] == r.value
        && Truthy(Param(query, callbackParams[i]))
        && forall j :: 0 <= j < i ==> !Truthy(Param(query, callbackParams[j])))
  {
    if callbackParams == [] then None
    else if Truthy(Param(query, callbackParams[0])) then Some(callbackParams[0])
    else
      var r := FirstCallbackParam(callbackParams[1..], query);
      assert forall i :: 1 <= i < |callbackParams| ==> callbackParams[i] == callbackParams[1..][i - 1];
      if r.Some? then
        var k :| 0 <= k < |callbackParams[1..]| && callbackParams[1..][k] == r.value
          && Truthy(Param(query, callbackParams[1..][k]))
          && forall j :: 0 <= j < k ==> !Truthy(Param(query, callbackParams[1..][j]));
        assert callbackParams[k + 1] == r.value;
        r
      else r
  }

  /**
   * `isMatch`: resolves with the value of the first callback parameter the query sets to a
   * non-empty string; `false` when there is none. A parameter named "" is itself falsy, so when it
   * comes first the module does not match.
   */
  function JsonpIsMatch(callbackParams: seq<string>, query: Query): (m: MatchReturn)
    ensures m.Bool? || m.Promise?
    ensures m.Bool? ==> !m.b
    ensures m.Promise? ==> m.settles.Resolves?
  {
    var key := FirstCallbackParam(callbackParams, query);
    if key.Some? && key.value != "" then Promise(Resolves(Param(query, key.value))) else Bool(false)
  }

  /** Without a parameter named "", the module matches iff some callback parameter is set, with the first one's value. */
  lemma JsonpMatchesCallback(callbackParams: seq<string>, query: Query)
    requires "" !in callbackParams
    ensures JsonpIsMatch(callbackParams, query).Promise?
      <==> exists i :: 0 <= i < |callbackParams| && callbackParams[i] in query && query[callbackParams[i]] != ""
    ensures JsonpIsMatch(callbackParams, query).Promise? ==>
      exists i :: (0 <= i < |callbackParams| && callbackParams[i] in query
        && JsonpIsMatch(callbackParams, query).settles.value == String(query[callbackParams[i]])
        && forall j :: 0 <= j < i ==> callbackParams[j] !in query || query[callbackParams[j]] == "")
  {
    var key := FirstCallbackParam(callbackParams, query);
    if key.Some? {
      var i :| 0 <= i < |callbackParams| && callbackParams[i] == key.value
        && Truthy(Param(query, callbackParams[i]))
        && forall j :: 0 <= j < i ==> !Truthy(Param(query, callbackParams[j]));
      assert callbackParams[i] in callbackParams;
    } else {
      forall i | 0 <= i < |callbackParams| ensures !(callbackParams[i] in query && query[callbackParams[i]] != "") {
        assert !Truthy(Param(query, callbackParams[i]));
      }
    }
  }

  /** `` `${callback}(${content})` ``. */
  function WrapCall(callback: string, content: string): string
  {
    callback + "(" + content + ")"
  }

  /** Recovers the content of a wrapped call to `callback`. */
  function UnwrapCall(callback: string, s: string): Option<string>
  {
    if |s| >= |callback| + 2 && s[..|callback| + 1] == callback + "(" && s[|s| - 1] == ')'
    then Some(s[|callback| + 1..|s| - 1])
    else None
  }

  /** The wrapped content is a call to `callback` whose argument is exactly the old content. */
  lemma UnwrapWrapCall(callback: string, content: string)
    ensures UnwrapCall(callback, WrapCall(callback, content)) == Some(content)
  {
    var s := WrapCall(callback, content);
    assert s[..|callback| + 1] == callback + "(";
    assert s[|callback| + 1..|s| - 1] == content;
  }

  /**
   * `getResponse` (both JSONP modules): a falsy previous response is passed on; otherwise the
   * `Content-Type` header is set and the content wrapped in a call to `callback`. Writing into
   * `undefined` or `null` headers throws.
   */
  function JsonpWrap(callback: JsValue, prev: Option<Response>): (out: StepOutcome)
    ensures prev.None? ==> out == Returned(None)
    ensures prev.Some? && prev.value.headers.Nullish? ==> out == Threw(false)
    ensures prev.Some? && prev.value.headers.Dict? ==> out.Returned? && out.value.Some?
    ensures out.Returned? && out.value.Some? ==>
      (prev.Some? && prev.value.headers.Dict? &&
      var r := out.value.value;
      && r.content == String(WrapCall(ToText(callback), ToText(prev.value.content)))
      && r.headers.Dict?
      && Lookup(r.headers.entries, "Content-Type") == Some(JsonpContentType)
      && (forall n :: n != "Content-Type" ==> Lookup(r.headers.entries, n) == Lookup(prev.value.headers.entries, n))
      && r.continueNext == prev.value.continueNext)
  {
    match prev
    case None => Returned(None)
    case Some(r) =>
      if r.headers.Nullish? then Threw(false)
      else
        var headers := Assign(r.headers.entries, "Content-Type", JsonpContentType);
        Returned(Some(Response(String(WrapCall(ToText(callback), ToText(r.content))), Dict(headers), r.continueNext)))
  }

  /** The wrapped response can be unwrapped to the previous content. */
  lemma JsonpWrapIsReversible(callback: JsValue, prev: Response)
    requires prev.headers.Dict?
    ensures var out := JsonpWrap(callback, Some(prev));
      UnwrapCall(ToText(callback), out.value.value.content.s) == Some(ToText(prev.content))
  {
    UnwrapWrapCall(ToText(callback), ToText(prev.content));
  }

  // ---------------------------------------------------------------- the express sample

  /** The sample module's properties: closed, priority 5, named "jsonp". */
  const SampleJsonpFields := ModuleFields(String("jsonp"), Boolean(false), Number(5), Function("isMatch"), Function("getResponse"))

  /**
   * The sample is closed, so the loader of `getChainResponse` (which keeps only open modules)
   * drops it. The express sample app mounts the legacy `chainResponse` instead, whose loader has no
   * `isOpen` filter: see `SampleJsonpIsLoadedByLegacy`.
   */
  lemma SampleJsonpIsDropped()
    ensures !Keeps(SampleJsonpFields)
  {
    KeepsMeans(SampleJsonpFields);
  }

  /**
   * The legacy loader accepts the sample as it is: it has both functions, and it keeps its own
   * name, its `isOpen` of `false` and its priority 5.
   */
  lemma SampleJsonpIsLoadedByLegacy(path: string)
    ensures LegacyCheckFields(path, SampleJsonpFields).isValid
    ensures LegacyCheckFields(path, SampleJsonpFields).fields == SampleJsonpFields
  {
  }

  /** The sample's `isMatch`: `!!query._callback`. */
  function SampleIsMatch(query: Query): (m: MatchReturn)
    ensures m.Bool?
    ensures m.b <==> "_callback" in query && query["_callback"] != ""
  {
    Bool(Truthy(Param(query, "_callback")))
  }

  /** The sample's `getResponse` wraps with `query._callback`, whatever the match result is. */
  function SampleGetResponse(query: Query, matchResult: JsValue, prev: Option<Response>): (out: StepOutcome)
    ensures prev.None? ==> out == Returned(None)
    ensures prev.Some? && prev.value.headers.Nullish? ==> out == Threw(false)
    ensures prev.Some? && prev.value.headers.Dict? ==>
      && out.Returned? && out.value.Some?
      && out.value.value.content == String(WrapCall(ToText(Param(query, "_callback")), ToText(prev.value.content)))
      && out.value.value.headers.Dict? && Lookup(out.value.value.headers.entries, "Content-Type") == Some(JsonpContentType)
  {
    JsonpWrap(Param(query, "_callback"), prev)
  }

  /**
   * The sample behaves as `getJsonpModule(["_callback"])`: it matches for the same queries, and
   * the callback the factory module receives as its match result is the one the sample reads.
   */
  lemma SampleAgreesWithFactory(query: Query, prev: Option<Response>)
    ensures SampleIsMatch(query).b <==> JsonpIsMatch(["_callback"], query).Promise?
    ensures JsonpIsMatch(["_callback"], query).Promise? ==>
      SampleGetResponse(query, Boolean(true), prev)
        == JsonpWrap(JsonpIsMatch(["_callback"], query).settles.value, prev)
  {
    JsonpMatchesCallback(["_callback"], query);
  }
}
