/**
 * Chain modules and their validation: `checkChainModule` of src/util.js (the current engine) and
 * of src/ChainResponse.js (the legacy engine). Both call a factory once, then write defaults into
 * the module object in place before deciding whether it is usable.
 */
module ModuleCheck {
  import opened Js

  /** The five properties the dispatcher inspects, as a value. */
  datatype ModuleFields = ModuleFields(
    name: JsValue,
    isOpen: JsValue,
    priority: JsValue,
    isMatch: JsValue,
    getResponse: JsValue)

  /** A chain module object; the checks and the directory loader assign to its properties. */
  class ChainModule {
    var name: JsValue
    var isOpen: JsValue
    var priority: JsValue
    var isMatch: JsValue
    var getResponse: JsValue

    constructor (fields: ModuleFields)
      ensures Fields() == fields
    {
      name := fields.name;
      isOpen := fields.isOpen;
      priority := fields.priority;
      isMatch := fields.isMatch;
      getResponse := fields.getResponse;
    }

    function Fields(): ModuleFields
      reads this
    {
      ModuleFields(name, isOpen, priority, isMatch, getResponse)
    }
  }

  /** The JavaScript values that are neither objects nor functions. */
  type Primitive = v: JsValue | v.Undefined? || v.Null? || v.Boolean? || v.Number? || v.String?
    witness Undefined

  /**
   * What a module source yields (an inline entry or the value of `require`): a module object, a
   * zero-argument factory together with the value a call returns, or a primitive.
   */
  datatype Export =
    | Module(obj: ChainModule)
    | Factory(result: Export)
    | Plain(value: Primitive)

  /** `typeof m === "function" ? m() : m`: a factory is called once and its result replaces it. */
  function Called(e: Export): (r: Export)
    ensures e.Factory? ==> r == e.result
    ensures !e.Factory? ==> r == e
  {
    if e.Factory? then e.result else e
  }

  /** The object a check may write to: the module object the candidate stands for after the call. */
  function Target(e: Export): set<ChainModule>
  {
    if Called(e).Module? then {Called(e).obj} else {}
  }

  datatype Verdict = Verdict(isValid: bool, fields: ModuleFields)

  /**
   * The defaults both checks write: a non-boolean `isOpen` becomes true, a non-number `priority`
   * becomes 100; well-typed values and every other property stay as they are.
   */
  function WithDefaults(f: ModuleFields): (g: ModuleFields)
    ensures g.isOpen.Boolean? && g.priority.Number?
    ensures f.isOpen.Boolean? ==> g.isOpen == f.isOpen
    ensures !f.isOpen.Boolean? ==> g.isOpen == Boolean(true)
    ensures f.priority.Number? ==> g.priority == f.priority
    ensures !f.priority.Number? ==> g.priority == Number(100)
    ensures g.name == f.name && g.isMatch == f.isMatch && g.getResponse == f.getResponse
  {
    f.(isOpen := if f.isOpen.Boolean? then f.isOpen else Boolean(true),
       priority := if f.priority.Number? then f.priority else Number(100))
  }

  /**
   * Current engine: valid iff `name` is a string (the empty string passes) and `isMatch` and
   * `getResponse` are functions. Defaults are written once the name check has passed, so a module
   * rejected for a missing `isMatch` still receives them; one rejected for its name does not.
   */
  function CheckFields(f: ModuleFields): (v: Verdict)
    ensures v.isValid <==> f.name.String? && f.isMatch.Function? && f.getResponse.Function?
    ensures f.name.String? ==> v.fields == WithDefaults(f)
    ensures !f.name.String? ==> v.fields == f
  {
    if !f.name.String? then Verdict(false, f)
    else
      var g := WithDefaults(f);
      Verdict(g.isMatch.Function? && g.getResponse.Function?, g)
  }

  /** `checkChainModule(m)` of src/util.js; returns `{isValid, chainModule}`. */
  method CheckChainModule(m: Export) returns (isValid: bool, chainModule: Export)
    modifies Target(m)
    ensures chainModule == Called(m)
    ensures !chainModule.Module? ==> !isValid
    ensures chainModule.Module? ==>
      var v := CheckFields(old(chainModule.obj.Fields()));
      isValid == v.isValid && chainModule.obj.Fields() == v.fields
  {
    chainModule := Called(m);
    isValid := false;
    if !chainModule.Module? {
      return;
    }
    var o := chainModule.obj;
    if !o.name.String? {
      return;
    }
    if !o.isOpen.Boolean? {
      o.isOpen := Boolean(true);
    }
    if !o.priority.Number? {
      o.priority := Number(100);
    }
    if !o.isMatch.Function? {
      return;
    }
    if !o.getResponse.Function? {
      return;
    }
    isValid := true;
  }

  /** Legacy defaults: those of `WithDefaults`, and a non-string `name` replaced by the module path. */
  function LegacyWithDefaults(path: string, f: ModuleFields): ModuleFields
  {
    WithDefaults(f).(name := if f.name.String? then f.name else String(path))
  }

  /**
   * Legacy engine: all defaults are written first, a non-string name is replaced rather than
   * rejected, and the module is valid iff `isMatch` and `getResponse` are functions.
   */
  function LegacyCheckFields(path: string, f: ModuleFields): (v: Verdict)
    ensures v.isValid <==> f.isMatch.Function? && f.getResponse.Function?
    ensures v.fields.name.String?
    ensures v.fields.name == (if f.name.String? then f.name else String(path))
    ensures v.fields == WithDefaults(f).(name := v.fields.name)
  {
    var g := LegacyWithDefaults(path, f);
    Verdict(g.isMatch.Function? && g.getResponse.Function?, g)
  }

  /**
   * `checkChainModule(item)` of src/ChainResponse.js for `item = {path, module}`; `resolved` is the
   * new `item.module` (a factory is replaced by what it returns).
   */
  method LegacyCheckChainModule(path: string, candidate: Export) returns (ok: bool, resolved: Export)
    modifies Target(candidate)
    ensures resolved == Called(candidate)
    ensures !resolved.Module? ==> !ok
    ensures resolved.Module? ==>
      var v := LegacyCheckFields(path, old(resolved.obj.Fields()));
      ok == v.isValid && resolved.obj.Fields() == v.fields
  {
    resolved := Called(candidate);
    if !resolved.Module? {
      return false, resolved;
    }
    var o := resolved.obj;
    if !o.isOpen.Boolean? {
      o.isOpen := Boolean(true);
    }
    if !o.name.String? {
      o.name := String(path);
    }
    if !o.priority.Number? {
      o.priority := Number(100);
    }
    if !o.isMatch.Function? {
      return false, resolved;
    }
    if !o.getResponse.Function? {
      return false, resolved;
    }
    ok := true;
  }

  /** Checking an already checked module changes nothing and gives the same verdict. */
  lemma CheckIsIdempotent(f: ModuleFields)
    ensures CheckFields(CheckFields(f).fields) == CheckFields(f)
  {
  }

  /** A legacy check of an already checked module keeps the first name it was given. */
  lemma LegacyCheckKeepsFirstName(first: string, second: string, f: ModuleFields)
    ensures LegacyCheckFields(second, LegacyCheckFields(first, f).fields) == LegacyCheckFields(first, f)
  {
  }

  /** The two engines part ways on a module whose name is not a string. */
  lemma NamelessModule(path: string, f: ModuleFields)
    requires !f.name.String? && f.isMatch.Function? && f.getResponse.Function?
    ensures !CheckFields(f).isValid && CheckFields(f).fields == f
    ensures LegacyCheckFields(path, f).isValid && LegacyCheckFields(path, f).fields.name == String(path)
  {
  }
}
