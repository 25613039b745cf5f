/**
 * The `chainOptions` singleton of src/chain-options.js: the debug flag, the switch path and the
 * switch state shared by every middleware the current engine builds.
 */
module Options {
  import opened Wrappers
  import opened Js

  const DefaultSwitchPath: string := "/@alanlib/express-middleware-chain-response"

  /** The three settings, as a value. */
  datatype Settings = Settings(debugMode: bool, switchPath: string, currentSwitchOn: bool)

  const Defaults := Settings(false, DefaultSwitchPath, true)

  /**
   * The `options` argument of `update`, by the three properties it reads; `None` stands for a
   * falsy argument (absent, `null`, `false`, `0`, `""`).
   */
  datatype OptionsArg = OptionsArg(debug: JsValue, switchPath: JsValue, currentSwitchOn: JsValue)

  /**
   * The settings after `update(options)`: nothing changes for a falsy argument, and each setting
   * takes the supplied value only when that value has the setting's type.
   */
  function Apply(s: Settings, options: Option<OptionsArg>): (t: Settings)
    ensures options.None? ==> t == s
    ensures options.Some? && options.value.debug.Boolean? ==> t.debugMode == options.value.debug.b
    ensures !(options.Some? && options.value.debug.Boolean?) ==> t.debugMode == s.debugMode
    ensures options.Some? && options.value.switchPath.String? ==> t.switchPath == options.value.switchPath.s
    ensures !(options.Some? && options.value.switchPath.String?) ==> t.switchPath == s.switchPath
    ensures options.Some? && options.value.currentSwitchOn.Boolean? ==> t.currentSwitchOn == options.value.currentSwitchOn.b
    ensures !(options.Some? && options.value.currentSwitchOn.Boolean?) ==> t.currentSwitchOn == s.currentSwitchOn
  {
    match options
    case None => s
    case Some(o) =>
      Settings(
        if o.debug.Boolean? then o.debug.b else s.debugMode,
        if o.switchPath.String? then o.switchPath.s else s.switchPath,
        if o.currentSwitchOn.Boolean? then o.currentSwitchOn.b else s.currentSwitchOn)
  }

  /** Supplying the same options again changes nothing more. */
  lemma ApplyIsIdempotent(s: Settings, options: Option<OptionsArg>)
    ensures Apply(Apply(s, options), options) == Apply(s, options)
  {
  }

  /** Options whose properties all have the wrong type leave every setting as it is. */
  lemma IllTypedOptionsChangeNothing(s: Settings, o: OptionsArg)
    requires !o.debug.Boolean? && !o.switchPath.String? && !o.currentSwitchOn.Boolean?
    ensures Apply(s, Some(o)) == s
  {
  }

  /** The options object; `update` and the switch-path request assign to its fields. */
  class ChainOptions {
    var debugMode: bool
    var switchPath: string
    var currentSwitchOn: bool

    /** The object as the module creates it. */
    constructor ()
      ensures Current() == Defaults
    {
      debugMode := false;
      switchPath := DefaultSwitchPath;
      currentSwitchOn := true;
    }

    function Current(): Settings
      reads this
    {
      Settings(debugMode, switchPath, currentSwitchOn)
    }

    /** `update(options)`. */
    method Update(options: Option<OptionsArg>)
      modifies this
      ensures Current() == Apply(old(Current()), options)
    {
      if options.None? {
        return;
      }
      var o := options.value;
      if o.debug.Boolean? {
        debugMode := o.debug.b;
      }
      if o.switchPath.String? {
        switchPath := o.switchPath.s;
      }
      if o.currentSwitchOn.Boolean? {
        currentSwitchOn := o.currentSwitchOn.b;
      }
    }
  }
}
