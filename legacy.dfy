/**
 * src/ChainResponse.js: the legacy engine. It takes an array of module objects as they are, or
 * loads and checks the modules of a directory, and returns a middleware that probes every module
 * and dispatches through the chain with the legacy choices (see `Chain.Engine`).
 */
module LegacyChainResponse {
  import opened Wrappers
  import opened Js
  import opened Files
  import opened ModuleCheck
  import opened Chain
  import opened ChainResponse

  // ---------------------------------------------------------------- directory loading

  /** The `filter` option: the default `.js` suffix test, or a function over the file record. */
  datatype FileFilter = JsFiles | Custom(keep: FileInfo -> bool)

  predicate Selects(filter: FileFilter, f: FileInfo)
  {
    match filter
    case JsFiles => IsJsFile(f)
    case Custom(keep) => keep(f)
  }

  /** The module paths of the files `filter` selects, in order. */
  function FilteredPaths(files: seq<FileInfo>, filter: FileFilter): (ps: seq<string>)
    ensures |ps| <= |files|
    ensures forall p :: p in ps ==> p != ""
    ensures forall f :: f in files && Selects(filter, f) ==> ModulePath(f) in ps
    ensures forall p :: p in ps ==> exists f :: f in files && Selects(filter, f) && p == ModulePath(f)
  {
    if files == [] then []
    else
      var rest := FilteredPaths(files[1..], filter);
      assert forall f :: f in files[1..] ==> f in files;
      assert forall f :: f in files ==> f == files[0] || f in files[1..];
      (if Selects(filter, files[0]) then [ModulePath(files[0])] else []) + rest
  }

  /**
   * The paths of two lists of files in a row are those of each, in turn, and one file gives its
   * path iff the filter selects it: the paths follow the files' order, one per selected file.
   */
  lemma {:induction false} FilteredPathsAppend(xs: seq<FileInfo>, ys: seq<FileInfo>, filter: FileFilter)
    ensures FilteredPaths(xs + ys, filter) == FilteredPaths(xs, filter) + FilteredPaths(ys, filter)
    ensures |xs| == 1 ==> FilteredPaths(xs, filter) == (if Selects(filter, xs[0]) then [ModulePath(xs[0])] else [])
    decreases |xs|
  {
    if xs == [] {
      assert xs + ys == ys;
    } else {
      assert (xs + ys)[0] == xs[0];
      assert (xs + ys)[1..] == xs[1..] + ys;
      FilteredPathsAppend(xs[1..], ys, filter);
      var head := if Selects(filter, xs[0]) then [ModulePath(xs[0])] else [];
      assert FilteredPaths(xs + ys, filter) == head + FilteredPaths(xs[1..] + ys, filter);
      assert FilteredPaths(xs, filter) == head + FilteredPaths(xs[1..], filter);
      RegroupFirst(FilteredPaths(xs + ys, filter), head, FilteredPaths(xs[1..], filter), FilteredPaths(ys, filter),
                   FilteredPaths(xs, filter));
      if |xs| == 1 {
        assert xs[1..] == [];
      }
    }
  }

  /** What each path yields once a factory export has been called: the value the check inspects. */
  function Checked(registry: Registry): (c: Registry)
    ensures c.Keys == registry.Keys
    ensures forall p :: p in registry ==> c[p] == Called(registry[p])
  {
    map p | p in registry :: Called(registry[p])
  }

  /**
   * The fields of `o` after the legacy checks of the items at `ps`: those of one check with the
   * first path that yields it (a later check finds its name and defaults in place).
   */
  function LegacyFields(f: ModuleFields, o: ChainModule, ps: seq<string>, registry: Registry): (g: ModuleFields)
    ensures g.isMatch == f.isMatch && g.getResponse == f.getResponse
  {
    if o in Touched(ps, Checked(registry))
    then LegacyCheckFields(FirstPathTo(o, ps, Checked(registry)), f).fields
    else f
  }

  lemma LegacyFieldsAppend(f: ModuleFields, o: ChainModule, xs: seq<string>, ys: seq<string>, registry: Registry)
    ensures LegacyFields(f, o, xs + ys, registry) == LegacyFields(LegacyFields(f, o, xs, registry), o, ys, registry)
  {
    TouchedAppend(o, xs, ys, Checked(registry));
    if o in Touched(xs, Checked(registry)) && o in Touched(ys, Checked(registry)) {
      LegacyCheckKeepsFirstName(FirstPathTo(o, xs, Checked(registry)), FirstPathTo(o, ys, Checked(registry)), f);
    }
  }

  lemma LegacyFieldsOne(f: ModuleFields, o: ChainModule, p: string, registry: Registry)
    ensures LegacyFields(f, o, [p], registry)
      == (if Yields(Checked(registry), p, o) then LegacyCheckFields(p, f).fields else f)
  {
    if Yields(Checked(registry), p, o) {
      TouchedAt([p], Checked(registry), 0, o);
    } else {
      assert o !in Touched([p], Checked(registry));
    }
  }

  /** The legacy check passes: `isMatch` and `getResponse` are functions. */
  predicate LegacyValid(f: ModuleFields)
  {
    f.isMatch.Function? && f.getResponse.Function?
  }

  /** `.filter(checkChainModule).map(item => item.module)` given the fields before the checks. */
  function LegacyAccepted(ps: seq<string>, registry: Registry, heap: Heap): (ms: seq<ChainModule>)
    requires forall p :: p in ps ==> p in registry
    requires Touched(ps, Checked(registry)) <= heap.Keys
    ensures |ms| <= |ps|
    ensures forall o :: o in ms ==> o in Touched(ps, Checked(registry)) && LegacyValid(heap[o])
    ensures forall i :: 0 <= i < |ps| && Called(registry[ps[i]]).Module? ==>
      (LegacyValid(heap[Called(registry[ps[i]]).obj]) ==> Called(registry[ps[i]]).obj in ms)
  {
    if ps == [] then []
    else
      var init := ps[..|ps| - 1];
      var last := Called(registry[ps[|ps| - 1]]);
      assert forall o :: o in Touched(init, Checked(registry)) ==> o in Touched(ps, Checked(registry)) by {
        forall o | o in Touched(init, Checked(registry)) ensures o in Touched(ps, Checked(registry)) {
          assert ps == init + [ps[|ps| - 1]];
          TouchedAppend(o, init, [ps[|ps| - 1]], Checked(registry));
        }
      }
      assert last.Module? ==> last.obj in Touched(ps, Checked(registry)) by {
        if last.Module? { TouchedAt(ps, Checked(registry), |ps| - 1, last.obj); }
      }
      LegacyAccepted(init, registry, heap) + (if last.Module? && LegacyValid(heap[last.obj]) then [last.obj] else [])
  }

  /**
   * The modules two lists of paths in a row keep are those each keeps, in turn, and one path is
   * kept iff it yields (once called) a module whose check passes: the checks keep the paths' order,
   * and an object two paths yield is kept twice.
   */
  lemma {:induction false} LegacyAcceptedAppend(xs: seq<string>, ys: seq<string>, registry: Registry, heap: Heap)
    requires forall p :: p in xs + ys ==> p in registry
    requires Touched(xs + ys, Checked(registry)) <= heap.Keys
    ensures Touched(xs, Checked(registry)) <= heap.Keys && Touched(ys, Checked(registry)) <= heap.Keys
    ensures LegacyAccepted(xs + ys, registry, heap) == LegacyAccepted(xs, registry, heap) + LegacyAccepted(ys, registry, heap)
    ensures |ys| == 1 ==>
      LegacyAccepted(ys, registry, heap)
        == (var c := Called(registry[ys[0]]); if c.Module? && LegacyValid(heap[c.obj]) then [c.obj] else [])
    decreases |ys|
  {
    forall o | o in Touched(xs, Checked(registry)) + Touched(ys, Checked(registry))
      ensures o in Touched(xs + ys, Checked(registry)) {
      TouchedAppend(o, xs, ys, Checked(registry));
    }
    if ys == [] {
      assert xs + ys == xs;
    } else {
      var zs := xs + ys;
      var n := |zs| - 1;
      var init := ys[..|ys| - 1];
      var last := Called(registry[ys[|ys| - 1]]);
      var tail := if last.Module? && LegacyValid(heap[last.obj]) then [last.obj] else [];
      assert zs[..n] == xs + init && zs[..n + 1] == zs && zs[n] == ys[|ys| - 1] by {
        assert zs[..n] == xs + init;
      }
      LegacyAcceptedNext(zs, n, registry, heap);
      assert forall p :: p in xs + init ==> p in zs;
      LegacyAcceptedAppend(xs, init, registry, heap);
      assert ys[..|ys|] == ys;
      LegacyAcceptedNext(ys, |ys| - 1, registry, heap);
      RegroupLast(LegacyAccepted(zs, registry, heap), LegacyAccepted(xs, registry, heap),
                  LegacyAccepted(init, registry, heap), LegacyAccepted(ys, registry, heap), tail);
      if |ys| == 1 {
        assert init == [];
      }
    }
  }

  /** Checking one more path appends at most the module it yields to the accepted ones. */
  lemma LegacyAcceptedNext(ps: seq<string>, i: nat, registry: Registry, heap: Heap)
    requires i < |ps|
    requires forall p :: p in ps ==> p in registry
    requires Touched(ps, Checked(registry)) <= heap.Keys
    ensures Touched(ps[..i], Checked(registry)) <= heap.Keys
    ensures Touched(ps[..i + 1], Checked(registry)) <= heap.Keys
    ensures Called(registry[ps[i]]).Module? ==> Called(registry[ps[i]]).obj in heap.Keys
    ensures LegacyAccepted(ps[..i + 1], registry, heap)
      == LegacyAccepted(ps[..i], registry, heap)
         + (var c := Called(registry[ps[i]]); if c.Module? && LegacyValid(heap[c.obj]) then [c.obj] else [])
  {
    TouchedOfPrefix(ps[..i], ps, Checked(registry));
    TouchedOfPrefix(ps[..i + 1], ps, Checked(registry));
    assert Checked(registry)[ps[i]] == Called(registry[ps[i]]);
    if Called(registry[ps[i]]).Module? {
      TouchedAt(ps, Checked(registry), i, Called(registry[ps[i]]).obj);
    }
    assert ps[..i + 1][..i] == ps[..i];
  }

  /** The checks of `getAllModules`, item by item, in path order. */
  method LegacyCheckAll(ps: seq<string>, registry: Registry) returns (accepted: seq<ChainModule>)
    requires forall p :: p in ps ==> p in registry
    modifies Touched(ps, Checked(registry))
    ensures accepted == LegacyAccepted(ps, registry, old(Snapshot(Touched(ps, Checked(registry)))))
    ensures forall o :: o in Touched(ps, Checked(registry)) ==>
      o.Fields() == LegacyFields(old(o.Fields()), o, ps, registry)
  {
    ghost var before := Snapshot(Touched(ps, Checked(registry)));
    accepted := [];
    var i := 0;
    while i < |ps|
      invariant 0 <= i <= |ps|
      invariant accepted == LegacyAccepted(ps[..i], registry, before)
      invariant forall o :: o in Touched(ps, Checked(registry)) ==>
        o.Fields() == LegacyFields(before[o], o, ps[..i], registry)
    {
      LegacyAcceptedNext(ps, i, registry, before);
      var ok, resolved := LegacyCheckAt(ps, i, registry, before);
      if ok {
        accepted := accepted + [resolved.obj];
      }
      i := i + 1;
    }
    assert ps[..i] == ps;
  }

  /** The check of the item at `ps[i]`, given that the items before it have been checked. */
  method LegacyCheckAt(ps: seq<string>, i: nat, registry: Registry, ghost before: Heap) returns (ok: bool, resolved: Export)
    requires i < |ps|
    requires forall p :: p in ps ==> p in registry
    requires before.Keys == Touched(ps, Checked(registry))
    requires forall o :: o in Touched(ps, Checked(registry)) ==>
      o.Fields() == LegacyFields(before[o], o, ps[..i], registry)
    modifies Touched(ps, Checked(registry))
    ensures resolved == Called(registry[ps[i]])
    ensures ok <==> resolved.Module? && LegacyValid(before[resolved.obj])
    ensures forall o :: o in Touched(ps, Checked(registry)) ==>
      o.Fields() == LegacyFields(before[o], o, ps[..i + 1], registry)
  {
    assert Checked(registry)[ps[i]] == Called(registry[ps[i]]);
    if Called(registry[ps[i]]).Module? {
      TouchedAt(ps, Checked(registry), i, Called(registry[ps[i]]).obj);
    }
    forall o | o in Touched(ps, Checked(registry))
      ensures LegacyFields(before[o], o, ps[..i + 1], registry)
        == (var g := LegacyFields(before[o], o, ps[..i], registry);
            if Yields(Checked(registry), ps[i], o) then LegacyCheckFields(ps[i], g).fields else g)
    {
      assert ps[..i + 1] == ps[..i] + [ps[i]];
      LegacyFieldsAppend(before[o], o, ps[..i], [ps[i]], registry);
      LegacyFieldsOne(LegacyFields(before[o], o, ps[..i], registry), o, ps[i], registry);
    }
    ok, resolved := LegacyCheckChainModule(ps[i], registry[ps[i]]);
  }

  /** Every path resolves; `require` of a path it cannot resolve throws. */
  predicate AllResolve(ps: seq<string>, registry: Registry)
  {
    forall i :: 0 <= i < |ps| ==> ps[i] in registry
  }

  /** `.map(p => ({ module: require(p), path: p }))`: throws at the first path that does not resolve. */
  method RequireEach(ps: seq<string>, registry: Registry) returns (resolves: bool)
    ensures resolves <==> AllResolve(ps, registry)
  {
    var i := 0;
    while i < |ps|
      invariant 0 <= i <= |ps|
      invariant AllResolve(ps[..i], registry)
    {
      if ps[i] !in registry {
        return false;
      }
      assert forall j :: 0 <= j < i ==> ps[..i + 1][j] == ps[..i][j];
      i := i + 1;
    }
    assert ps[..i] == ps;
    return true;
  }

  /** The module paths of the legacy `getAllModules(dir, filter)`. */
  function LegacyDirPaths(dir: string, children: seq<Node>, filter: FileFilter, relative: string -> string): seq<string>
  {
    FilteredPaths(Walk(dir, children, relative), filter)
  }

  /**
   * `getAllModules(dir, filter)` of src/ChainResponse.js: requires every selected file, then
   * keeps the items whose check passes, as the (called) module objects.
   */
  method LegacyGetAllModules(dir: string, children: seq<Node>, filter: FileFilter, registry: Registry, relative: string -> string)
    returns (r: Option<seq<ChainModule>>)
    modifies Touched(LegacyDirPaths(dir, children, filter, relative), Checked(registry))
    ensures var ps := LegacyDirPaths(dir, children, filter, relative);
      && (r.None? <==> !AllResolve(ps, registry))
      && (r.Some? ==> r.value == LegacyAccepted(ps, registry, old(Snapshot(Touched(ps, Checked(registry))))))
      && (r.Some? ==> forall o :: o in Touched(ps, Checked(registry)) ==>
            o.Fields() == LegacyFields(old(o.Fields()), o, ps, registry))
  {
    ghost var targets := Touched(LegacyDirPaths(dir, children, filter, relative), Checked(registry));
    ghost var before := Snapshot(targets);
    var files := RecurseFiles(dir, children, [], relative);
    assert files == Walk(dir, children, relative);
    var ps := FilteredPaths(files, filter);
    assert ps == LegacyDirPaths(dir, children, filter, relative);
    var resolves := RequireEach(ps, registry);
    if !resolves {
      return None;
    }
    assert forall p :: p in ps ==> p in registry;
    assert Snapshot(targets) == before;
    var accepted := LegacyCheckAll(ps, registry);
    return Some(accepted);
  }

  /**
   * Every module the legacy loader keeps ends up with a string name, a boolean `isOpen`, a numeric
   * priority (its own, or 100 when it had none), and callable `isMatch` and `getResponse`. Nothing
   * filters on `isOpen`: a closed module is kept.
   */
  lemma LegacyLoadedModulesAreReady(ps: seq<string>, registry: Registry, heap: Heap, o: ChainModule)
    requires forall p :: p in ps ==> p in registry
    requires Touched(ps, Checked(registry)) <= heap.Keys
    requires o in LegacyAccepted(ps, registry, heap)
    ensures o in heap
    ensures var g := LegacyFields(heap[o], o, ps, registry);
      && g.name.String? && g.isOpen.Boolean?
      && (heap[o].isOpen.Boolean? ==> g.isOpen == heap[o].isOpen)
      && g.priority == (if heap[o].priority.Number? then heap[o].priority else Number(100))
      && g.isMatch.Function? && g.getResponse.Function?
  {
  }

  // ---------------------------------------------------------------- construction

  /** The first argument: an array of modules, or options naming a directory and a filter. */
  datatype LegacyArg = ModuleList(items: seq<Export>) | DirOptions(dir: JsValue, filter: FileFilter) | NullishArg

  /** The second argument: omitted (it defaults to `{}`), `null`, or a value with a `debug` property. */
  datatype DebugArg = Omitted | NullDebug | Given(debug: JsValue)

  /** The module-level `debugMode` flag of src/ChainResponse.js. */
  class LegacyLog {
    var debugMode: bool

    constructor ()
      ensures !debugMode
    {
      debugMode := false;
    }
  }

  /** `readdirSync(dir)` succeeds: `dir` is a path naming a directory. */
  predicate IsDirectory(dir: JsValue, fs: FileSystem)
  {
    dir.String? && dir.s in fs && fs[dir.s].Dir?
  }

  function DirPathsOf(arg: LegacyArg, fs: FileSystem, relative: string -> string): seq<string>
  {
    if arg.DirOptions? && IsDirectory(arg.dir, fs)
    then LegacyDirPaths(arg.dir.s, fs[arg.dir.s].children, arg.filter, relative)
    else []
  }

  function AsExports(ms: seq<ChainModule>): (es: seq<Export>)
    ensures |es| == |ms|
    ensures forall i :: 0 <= i < |ms| ==> es[i] == Module(ms[i])
  {
    seq(|ms|, i requires 0 <= i < |ms| => Module(ms[i]))
  }

  /** The legacy middleware, by the modules it probes; `Thrown` when `chainResponse` throws. */
  datatype LegacyBuilt = Thrown | Ready(modules: seq<Export>)

  /**
   * `chainResponse(modulesOrOptions, { debug } = {})`: a `null` second argument throws while the
   * parameters are bound; otherwise `debugMode` becomes `!!debug`. An array is taken as it is (its
   * `name` log throws on a `null` or `undefined` entry); options load the modules of `dir`.
   */
  method MakeLegacyChainResponse(arg: LegacyArg, second: DebugArg, log: LegacyLog,
                                 fs: FileSystem, registry: Registry, relative: string -> string)
    returns (b: LegacyBuilt)
    modifies log, Touched(DirPathsOf(arg, fs, relative), Checked(registry))
    ensures second.NullDebug? ==> b == Thrown && log.debugMode == old(log.debugMode)
    ensures !second.NullDebug? ==> log.debugMode == (second.Given? && Truthy(second.debug))
    ensures arg.NullishArg? ==> b == Thrown
    ensures arg.ModuleList? && !second.NullDebug? ==>
      b == (if exists i :: 0 <= i < |arg.items| && Nullish(arg.items[i]) then Thrown else Ready(arg.items))
    ensures arg.DirOptions? && !second.NullDebug? ==>
      (b.Thrown? <==> !IsDirectory(arg.dir, fs) || !AllResolve(DirPathsOf(arg, fs, relative), registry))
    ensures arg.DirOptions? && b.Ready? ==>
      var ps := DirPathsOf(arg, fs, relative);
      AllResolve(ps, registry)
      && b.modules == AsExports(LegacyAccepted(ps, registry, old(Snapshot(Touched(ps, Checked(registry))))))
    ensures arg.DirOptions? && b.Ready? ==>
      var ps := DirPathsOf(arg, fs, relative);
      var before := old(Snapshot(Touched(ps, Checked(registry))));
      forall o :: o in before ==> o.Fields() == LegacyFields(before[o], o, ps, registry)
  {
    if second.NullDebug? {
      return Thrown;
    }
    log.debugMode := second.Given? && Truthy(second.debug);
    match arg
    case NullishArg =>
      return Thrown;
    case ModuleList(items) =>
      var i := 0;
      while i < |items|
        invariant 0 <= i <= |items|
        invariant forall j :: 0 <= j < i ==> !Nullish(items[j])
      {
        if Nullish(items[i]) {
          return Thrown;
        }
        i := i + 1;
      }
      return Ready(items);
    case DirOptions(dir, filter) =>
      if !IsDirectory(dir, fs) {
        return Thrown;
      }
      var loaded := LegacyGetAllModules(dir.s, fs[dir.s].children, filter, registry, relative);
      if loaded.None? {
        return Thrown;
      }
      return Ready(AsExports(loaded.value));
  }

  // ---------------------------------------------------------------- requests

  function ObjectsOf(entries: seq<Export>): set<ChainModule>
  {
    set i | 0 <= i < |entries| && entries[i].Module? :: entries[i].obj
  }

  /** Every entry is a module object whose `isMatch` is a function, so probing it does not throw. */
  predicate Probeable(entries: seq<Export>)
    reads ObjectsOf(entries)
  {
    forall i :: 0 <= i < |entries| ==> entries[i].Module? && entries[i].obj.isMatch.Function?
  }

  function Objects(entries: seq<Export>): (ms: seq<ChainModule>)
    requires forall i :: 0 <= i < |entries| ==> entries[i].Module?
    ensures |ms| == |entries|
    ensures forall i :: 0 <= i < |entries| ==> ms[i] == entries[i].obj
  {
    seq(|entries|, i requires 0 <= i < |entries| => entries[i].obj)
  }

  /**
   * One request to the legacy middleware: `m.isMatch(reqInfo)` on an entry without a callable
   * `isMatch` throws; otherwise the request is dispatched with the legacy choices.
   */
  function LegacyHandle(entries: seq<Export>, probe: Prober, respond: Responder): (e: Effects)
    reads ObjectsOf(entries)
    ensures !Probeable(entries) ==> e == Raised
    ensures Probeable(entries) ==> (e == Raised <==> AnyThrows(Objects(entries), probe))
  {
    if !Probeable(entries) then Raised
    else Dispatch(Legacy, Objects(entries), probe, respond)
  }

  /** Modules loaded from a directory passed the check, so probing them never throws on a missing `isMatch`. */
  lemma LoadedModulesAreProbeable(ps: seq<string>, registry: Registry, heap: Heap)
    requires forall p :: p in ps ==> p in registry
    requires Touched(ps, Checked(registry)) <= heap.Keys
    ensures forall o :: o in LegacyAccepted(ps, registry, heap) ==> heap[o].isMatch.Function?
  {
  }

  /**
   * Unless something throws, the legacy middleware sends a body or calls `next()`, never both;
   * the one exception is a chain whose promise rejects (the last `getResponse` throws `undefined`
   * or `null`), which leaves the request unanswered.
   */
  lemma LegacyAnswersEveryRequest(entries: seq<Export>, probe: Prober, respond: Responder)
    requires LegacyHandle(entries, probe, respond) != Raised
    ensures var e := LegacyHandle(entries, probe, respond); e.sent.Some? != e.nextCalled || e == Unanswered
    ensures LegacyHandle(entries, probe, respond) == Unanswered
      <==> ChainModules(Legacy, Matched(Legacy, Objects(entries), probe), respond).Broken?
  {
    var mods := Objects(entries);
    var s := ChainModules(Legacy, Matched(Legacy, mods, probe), respond);
    if s.ChainState? {
      LegacyAnswersOrDefers(s.prevResponse);
    }
  }
}
