/**
 * src/chain-response.js: the current engine's `chainResponse`. It loads the modules once (paths,
 * directories, objects and factories), checks them with `checkChainModule`, and returns a
 * middleware that answers the switch path, honours the switch, and otherwise dispatches the
 * request through the chain.
 */
module ChainResponse {
  import opened Wrappers
  import opened Js
  import opened Files
  import opened ModuleCheck
  import opened Chain
  import opened Options

  /** The file system as the loader sees it: `existsSync` is membership, `statSync` the node's kind. */
  type FileSystem = map<string, Node>

  /**
   * The module registry behind `require`: the value each resolvable path exports. Requiring a
   * path the registry does not hold throws.
   */
  type Registry = map<string, Export>

  /** Requiring `p` yields the module object `o`. */
  predicate Yields(registry: Registry, p: string, o: ChainModule)
  {
    p in registry && registry[p] == Module(o)
  }

  // ---------------------------------------------------------------- directory loading

  /** `/\.js$/g.test(fullPath)`. */
  predicate IsJsFile(f: FileInfo)
  {
    |f.fullPath| >= 3 && f.fullPath[|f.fullPath| - 3..] == ".js"
  }

  /** `` `.${path.sep}${f.relativePath}${path.sep}${f.fileName}` `` with "/" as the separator. */
  function ModulePath(f: FileInfo): (p: string)
    ensures |p| >= 3 && p[..2] == "./"
  {
    "./" + ToText(OfOptional(f.relativePath)) + "/" + f.fileName
  }

  /** The module paths of the `.js` files among `files`, in order. */
  function JsModulePaths(files: seq<FileInfo>): (ps: seq<string>)
    ensures |ps| <= |files|
    ensures forall p :: p in ps ==> p != ""
    ensures forall f :: f in files && IsJsFile(f) ==> ModulePath(f) in ps
    ensures forall p :: p in ps ==> exists f :: f in files && IsJsFile(f) && p == ModulePath(f)
  {
    if files == [] then []
    else
      var rest := JsModulePaths(files[1..]);
      assert forall f :: f in files[1..] ==> f in files;
      assert forall f :: f in files ==> f == files[0] || f in files[1..];
      (if IsJsFile(files[0]) then [ModulePath(files[0])] else []) + rest
  }

  /**
   * The paths of two lists of files in a row are those of each, in turn, and one file gives its
   * path iff it is a `.js` file: the paths follow the files' order, one per `.js` file.
   */
  lemma {:induction false} JsModulePathsAppend(xs: seq<FileInfo>, ys: seq<FileInfo>)
    ensures JsModulePaths(xs + ys) == JsModulePaths(xs) + JsModulePaths(ys)
    ensures |xs| == 1 ==> JsModulePaths(xs) == (if IsJsFile(xs[0]) then [ModulePath(xs[0])] else [])
    decreases |xs|
  {
    if xs == [] {
      assert xs + ys == ys;
    } else {
      var head := if IsJsFile(xs[0]) then [ModulePath(xs[0])] else [];
      assert (xs + ys)[0] == xs[0];
      assert (xs + ys)[1..] == xs[1..] + ys;
      JsModulePathsAppend(xs[1..], ys);
      assert JsModulePaths(xs + ys) == head + JsModulePaths(xs[1..] + ys);
      assert JsModulePaths(xs) == head + JsModulePaths(xs[1..]);
      RegroupFirst(JsModulePaths(xs + ys), head, JsModulePaths(xs[1..]), JsModulePaths(ys), JsModulePaths(xs));
      if |xs| == 1 {
        assert xs[1..] == [];
      }
    }
  }

  /** The module paths `getAllModules(dir)` requires, in order. */
  function DirModulePaths(dir: string, children: seq<Node>, relative: string -> string): (ps: seq<string>)
    ensures forall p :: p in ps ==> p != ""
  {
    JsModulePaths(Walk(dir, children, relative))
  }

  /** `null` and `undefined`: reading their `name` throws. */
  predicate Nullish(e: Export)
  {
    e.Plain? && (e.value.Undefined? || e.value.Null?)
  }

  /** `require(p).name` can be evaluated: the path resolves and its export is not nullish. */
  predicate Requirable(p: string, registry: Registry)
  {
    p in registry && !Nullish(registry[p])
  }

  predicate RequireThrows(ps: seq<string>, registry: Registry)
  {
    exists i :: 0 <= i < |ps| && !Requirable(ps[i], registry)
  }

  function Required(ps: seq<string>, registry: Registry): (es: seq<Export>)
    requires forall i :: 0 <= i < |ps| ==> ps[i] in registry
    ensures |es| == |ps|
    ensures forall i :: 0 <= i < |ps| ==> es[i] == registry[ps[i]]
  {
    seq(|ps|, i requires 0 <= i < |ps| => registry[ps[i]])
  }

  /** The module objects that requiring `ps` yields. */
  function Touched(ps: seq<string>, registry: Registry): set<ChainModule>
  {
    set i | 0 <= i < |ps| && ps[i] in registry && registry[ps[i]].Module? :: registry[ps[i]].obj
  }

  lemma TouchedAt(ps: seq<string>, registry: Registry, i: int, o: ChainModule)
    requires 0 <= i < |ps| && Yields(registry, ps[i], o)
    ensures o in Touched(ps, registry)
  {
    assert registry[ps[i]].obj == o;
  }

  /** The first of `ps` whose module is `o`. */
  function FirstPathTo(o: ChainModule, ps: seq<string>, registry: Registry): (p: string)
    requires o in Touched(ps, registry)
    ensures p in ps && Yields(registry, p, o)
  {
    if Yields(registry, ps[0], o) then ps[0]
    else
      assert o in Touched(ps[1..], registry) by {
        var i :| 0 <= i < |ps| && Yields(registry, ps[i], o);
        assert ps[1..][i - 1] == ps[i];
      }
      FirstPathTo(o, ps[1..], registry)
  }

  /** `if (typeof m.name !== "string" || m.name === "") m.name = p;` */
  function NameFix(f: ModuleFields, p: string): (g: ModuleFields)
    ensures g.name.String?
    ensures g.name != String("") <== p != ""
    ensures g.(name := f.name) == f
    ensures !f.name.String? || f.name == String("") ==> g == f.(name := String(p))
    ensures f.name.String? && f.name != String("") ==> g == f
  {
    if !f.name.String? || f.name == String("") then f.(name := String(p)) else f
  }

  /** A module named once keeps its name: renaming again with another path changes nothing. */
  lemma NameFixKeepsFirstName(f: ModuleFields, p: string, q: string)
    requires p != ""
    ensures NameFix(NameFix(f, p), q) == NameFix(f, p)
  {
  }

  /**
   * The fields of `o` after requiring `ps` in order: it is named after the first path that yields
   * it, if it had no usable name; modules the paths do not yield are untouched.
   */
  function RenamedFields(f: ModuleFields, o: ChainModule, ps: seq<string>, registry: Registry): ModuleFields
  {
    if o in Touched(ps, registry) then NameFix(f, FirstPathTo(o, ps, registry)) else f
  }

  /** The modules requiring `xs + ys` touches are those `xs` touches and those `ys` touches. */
  lemma TouchedConcat(o: ChainModule, xs: seq<string>, ys: seq<string>, registry: Registry)
    ensures o in Touched(xs + ys, registry) <==> o in Touched(xs, registry) || o in Touched(ys, registry)
  {
    if o in Touched(xs + ys, registry) {
      var i :| 0 <= i < |xs + ys| && Yields(registry, (xs + ys)[i], o);
      if i < |xs| {
        assert xs[i] == (xs + ys)[i];
        TouchedAt(xs, registry, i, o);
      } else {
        assert ys[i - |xs|] == (xs + ys)[i];
        TouchedAt(ys, registry, i - |xs|, o);
      }
    }
    if o in Touched(xs, registry) {
      var i :| 0 <= i < |xs| && Yields(registry, xs[i], o);
      assert (xs + ys)[i] == xs[i];
      TouchedAt(xs + ys, registry, i, o);
    }
    if o in Touched(ys, registry) {
      var i :| 0 <= i < |ys| && Yields(registry, ys[i], o);
      assert (xs + ys)[|xs| + i] == ys[i];
      TouchedAt(xs + ys, registry, |xs| + i, o);
    }
  }

  /** A module touched by `xs` is not touched by the rest of `xs` only if the first path yields it. */
  lemma TouchedTail(o: ChainModule, xs: seq<string>, registry: Registry)
    requires xs != []
    ensures o in Touched(xs, registry) <==> Yields(registry, xs[0], o) || o in Touched(xs[1..], registry)
  {
    TouchedConcat(o, [xs[0]], xs[1..], registry);
    assert [xs[0]] + xs[1..] == xs;
    if Yields(registry, xs[0], o) {
      TouchedAt([xs[0]], registry, 0, o);
    }
  }

  /** Requiring `xs + ys` reaches a module by its first path in `xs`, or else by its first path in `ys`. */
  lemma {:induction false} TouchedAppend(o: ChainModule, xs: seq<string>, ys: seq<string>, registry: Registry)
    ensures o in Touched(xs + ys, registry) <==> o in Touched(xs, registry) || o in Touched(ys, registry)
    ensures o in Touched(xs, registry) ==> FirstPathTo(o, xs + ys, registry) == FirstPathTo(o, xs, registry)
    ensures o !in Touched(xs, registry) && o in Touched(ys, registry) ==>
      FirstPathTo(o, xs + ys, registry) == FirstPathTo(o, ys, registry)
    decreases |xs|
  {
    TouchedConcat(o, xs, ys, registry);
    if xs == [] {
      assert xs + ys == ys;
    } else if o in Touched(xs + ys, registry) && !Yields(registry, xs[0], o) {
      assert (xs + ys)[0] == xs[0];
      assert (xs + ys)[1..] == xs[1..] + ys;
      TouchedAppend(o, xs[1..], ys, registry);
      TouchedTail(o, xs, registry);
    }
  }

  /** Requiring `xs` and then `ys` renames as requiring `xs + ys` does. */
  lemma RenamedAppend(f: ModuleFields, o: ChainModule, xs: seq<string>, ys: seq<string>, registry: Registry)
    requires forall p :: p in xs ==> p != ""
    ensures RenamedFields(f, o, xs + ys, registry) == RenamedFields(RenamedFields(f, o, xs, registry), o, ys, registry)
  {
    TouchedAppend(o, xs, ys, registry);
    if o in Touched(xs, registry) && o in Touched(ys, registry) {
      NameFixKeepsFirstName(f, FirstPathTo(o, xs, registry), FirstPathTo(o, ys, registry));
    }
  }

  /** Requiring one path renames at most the module it yields. */
  lemma RenamedOne(f: ModuleFields, o: ChainModule, p: string, registry: Registry)
    ensures RenamedFields(f, o, [p], registry) == (if Yields(registry, p, o) then NameFix(f, p) else f)
  {
    if Yields(registry, p, o) {
      TouchedAt([p], registry, 0, o);
    } else {
      assert o !in Touched([p], registry);
    }
  }

  /** Requiring one more path renames at most the module that path yields. */
  lemma RenameNext(f: ModuleFields, o: ChainModule, ps: seq<string>, i: nat, registry: Registry)
    requires i < |ps|
    requires forall p :: p in ps ==> p != ""
    ensures RenamedFields(f, o, ps[..i + 1], registry)
      == (var g := RenamedFields(f, o, ps[..i], registry); if Yields(registry, ps[i], o) then NameFix(g, ps[i]) else g)
  {
    assert ps[..i + 1] == ps[..i] + [ps[i]];
    assert forall p :: p in ps[..i] ==> p in ps;
    RenamedAppend(f, o, ps[..i], [ps[i]], registry);
    RenamedOne(RenamedFields(f, o, ps[..i], registry), o, ps[i], registry);
  }

  /**
   * `getAllModules(dir)`: requires every `.js` file below `dir` and names a module without a
   * usable name after its path. A path `require` cannot resolve, or whose export is `null` or
   * `undefined`, throws.
   */
  method GetAllModules(dir: string, children: seq<Node>, registry: Registry, relative: string -> string)
    returns (r: Option<seq<Export>>)
    modifies Touched(DirModulePaths(dir, children, relative), registry)
    ensures var ps := DirModulePaths(dir, children, relative);
      && (r.None? <==> RequireThrows(ps, registry))
      && (r.Some? ==> (forall i :: 0 <= i < |ps| ==> ps[i] in registry) && r.value == Required(ps, registry))
      && (r.Some? ==> forall o :: o in Touched(ps, registry) ==>
            o.Fields() == RenamedFields(old(o.Fields()), o, ps, registry))
  {
    var files := RecurseFiles(dir, children, [], relative);
    assert files == Walk(dir, children, relative);
    var ps := JsModulePaths(files);
    r := RequireAll(ps, registry);
  }

  /** The `.map(p => { const m = require(p); ... })` step of `getAllModules`. */
  method RequireAll(ps: seq<string>, registry: Registry) returns (r: Option<seq<Export>>)
    requires forall p :: p in ps ==> p != ""
    modifies Touched(ps, registry)
    ensures r.None? <==> RequireThrows(ps, registry)
    ensures r.Some? ==> (forall i :: 0 <= i < |ps| ==> ps[i] in registry) && r.value == Required(ps, registry)
    ensures r.Some? ==> forall o :: o in Touched(ps, registry) ==>
      o.Fields() == RenamedFields(old(o.Fields()), o, ps, registry)
  {
    var loaded := [];
    var i := 0;
    while i < |ps|
      invariant 0 <= i <= |ps|
      invariant forall j :: 0 <= j < i ==> ps[j] in registry
      invariant loaded == Required(ps[..i], registry)
      invariant !RequireThrows(ps[..i], registry)
      invariant forall o :: o in Touched(ps, registry) ==>
        o.Fields() == RenamedFields(old(o.Fields()), o, ps[..i], registry)
    {
      if !Requirable(ps[i], registry) {
        return None;
      }
      var m := registry[ps[i]];
      forall o | o in Touched(ps, registry)
        ensures RenamedFields(old(o.Fields()), o, ps[..i + 1], registry)
          == (var f := RenamedFields(old(o.Fields()), o, ps[..i], registry);
              if Yields(registry, ps[i], o) then NameFix(f, ps[i]) else f)
      {
        RenameNext(old(o.Fields()), o, ps, i, registry);
      }
      if m.Module? {
        TouchedAt(ps, registry, i, m.obj);
        NameAfter(m.obj, ps[i]);
      }
      loaded := loaded + [m];
      i := i + 1;
    }
    assert ps[..i] == ps;
    return Some(loaded);
  }

  /** `if (typeof m.name !== "string" || m.name === "") { m.name = p; }` */
  method NameAfter(m: ChainModule, p: string)
    modifies m
    ensures m.Fields() == NameFix(old(m.Fields()), p)
  {
    if !m.name.String? || m.name == String("") {
      m.name := String(p);
    }
  }

  // ---------------------------------------------------------------- loading the entries

  /**
   * The entry filter: a non-empty string naming an existing path, or anything whose `typeof` is
   * "object" (`null` included) or "function".
   */
  predicate Kept(e: Export, fs: FileSystem)
  {
    match e
    case Plain(v) => (v.String? && v.s != "" && v.s in fs) || v.Null?
    case _ => true
  }

  /** `modules.filter(...)`: the kept entries, in order. */
  function KeptEntries(entries: seq<Export>, fs: FileSystem): (kept: seq<Export>)
    ensures |kept| <= |entries|
    ensures forall e :: e in kept ==> e in entries && Kept(e, fs)
    ensures forall i {:trigger Kept(entries[i], fs)} :: 0 <= i < |entries| && Kept(entries[i], fs) ==> entries[i] in kept
  {
    if entries == [] then []
    else
      var init := entries[..|entries| - 1];
      var last := entries[|entries| - 1];
      assert entries == init + [last];
      KeptEntries(init, fs) + (if Kept(last, fs) then [last] else [])
  }

  /**
   * The kept entries of two lists in a row are those of each, in turn, and one entry is kept iff
   * it passes the filter: the filter keeps the entries' order, repeats included.
   */
  lemma {:induction false} KeptEntriesAppend(xs: seq<Export>, ys: seq<Export>, fs: FileSystem)
    ensures KeptEntries(xs + ys, fs) == KeptEntries(xs, fs) + KeptEntries(ys, fs)
    ensures |ys| == 1 ==> KeptEntries(ys, fs) == (if Kept(ys[0], fs) then ys else [])
    decreases |ys|
  {
    if ys == [] {
      assert xs + ys == xs;
    } else {
      var zs := xs + ys;
      var init := ys[..|ys| - 1];
      var last := ys[|ys| - 1];
      var tail := if Kept(last, fs) then [last] else [];
      assert KeptEntries(zs, fs) == KeptEntries(xs + init, fs) + tail by {
        assert zs[..|zs| - 1] == xs + init && zs[|zs| - 1] == last;
        KeptEntriesLast(zs, fs);
      }
      assert KeptEntries(ys, fs) == KeptEntries(init, fs) + tail by {
        KeptEntriesLast(ys, fs);
      }
      KeptEntriesAppend(xs, init, fs);
      RegroupLast(KeptEntries(zs, fs), KeptEntries(xs, fs), KeptEntries(init, fs), KeptEntries(ys, fs), tail);
      if |ys| == 1 {
        assert ys == [last];
      }
    }
  }

  /** The kept entries of a non-empty list: those of all but the last, then the last if it is kept. */
  lemma KeptEntriesLast(entries: seq<Export>, fs: FileSystem)
    requires entries != []
    ensures var last := entries[|entries| - 1];
      KeptEntries(entries, fs) == KeptEntries(entries[..|entries| - 1], fs) + (if Kept(last, fs) then [last] else [])
    ensures |entries| == 1 ==> entries[..|entries| - 1] == [] && KeptEntries(entries[..0], fs) == []
  {
    assert entries[..0] == [];
  }

  /** A kept string entry naming a directory. */
  predicate IsDirEntry(e: Export, fs: FileSystem)
  {
    e.Plain? && e.value.String? && e.value.s in fs && fs[e.value.s].Dir?
  }

  /** A kept string entry naming a file. */
  predicate IsFileEntry(e: Export, fs: FileSystem)
  {
    e.Plain? && e.value.String? && e.value.s in fs && fs[e.value.s].File?
  }

  /** The module paths a directory entry requires; none for other entries. */
  function EntryDirPaths(e: Export, fs: FileSystem, relative: string -> string): (ps: seq<string>)
    ensures forall p :: p in ps ==> p != ""
  {
    if IsDirEntry(e, fs) then DirModulePaths(e.value.s, fs[e.value.s].children, relative) else []
  }

  /** Expanding the entry throws: an unresolvable file, or a directory `getAllModules` throws for. */
  predicate EntryThrows(e: Export, fs: FileSystem, registry: Registry, relative: string -> string)
  {
    || (IsFileEntry(e, fs) && e.value.s !in registry)
    || RequireThrows(EntryDirPaths(e, fs, relative), registry)
  }

  /**
   * What one kept entry expands to: a file path its export, a directory path the exports of its
   * `.js` files, any other path nothing, and a non-string entry itself.
   */
  function Expansion(e: Export, fs: FileSystem, registry: Registry, relative: string -> string): (es: seq<Export>)
    requires !EntryThrows(e, fs, registry, relative)
    ensures IsFileEntry(e, fs) ==> es == [registry[e.value.s]]
    ensures !(e.Plain? && e.value.String?) ==> es == [e]
  {
    if e.Plain? && e.value.String? then
      if IsFileEntry(e, fs) then [registry[e.value.s]]
      else if IsDirEntry(e, fs) then
        var ps := EntryDirPaths(e, fs, relative);
        assert forall i :: 0 <= i < |ps| ==> ps[i] in registry by {
          forall i | 0 <= i < |ps| ensures ps[i] in registry {
            assert Requirable(ps[i], registry);
          }
        }
        Required(ps, registry)
      else []
    else [e]
  }

  /** The directory module paths of all `kept` entries, in order. */
  function AllDirPaths(kept: seq<Export>, fs: FileSystem, relative: string -> string): (ps: seq<string>)
    ensures forall p :: p in ps ==> p != ""
  {
    if kept == [] then []
    else AllDirPaths(kept[..|kept| - 1], fs, relative) + EntryDirPaths(kept[|kept| - 1], fs, relative)
  }

  predicate AnyEntryThrows(kept: seq<Export>, fs: FileSystem, registry: Registry, relative: string -> string)
  {
    exists i :: 0 <= i < |kept| && EntryThrows(kept[i], fs, registry, relative)
  }

  /** `.map(expand).reduce((prev, next) => prev.concat(next), [])` over the kept entries. */
  function Gather(kept: seq<Export>, fs: FileSystem, registry: Registry, relative: string -> string): seq<Export>
    requires !AnyEntryThrows(kept, fs, registry, relative)
  {
    if kept == [] then []
    else
      var init := kept[..|kept| - 1];
      assert forall i :: 0 <= i < |init| ==> init[i] == kept[i];
      Gather(init, fs, registry, relative) + Expansion(kept[|kept| - 1], fs, registry, relative)
  }

  /** The directory paths of a prefix come first among those of the whole list. */
  lemma {:induction false} DirPathsOfPrefix(kept: seq<Export>, i: nat, fs: FileSystem, relative: string -> string)
    requires i <= |kept|
    ensures AllDirPaths(kept[..i], fs, relative) <= AllDirPaths(kept, fs, relative)
    decreases |kept| - i
  {
    if i < |kept| {
      DirPathsOfPrefix(kept, i + 1, fs, relative);
      assert kept[..i + 1][..i] == kept[..i];
    } else {
      assert kept[..i] == kept;
    }
  }

  /** Requiring a prefix of the paths touches only modules that the whole list touches. */
  lemma TouchedOfPrefix(xs: seq<string>, ys: seq<string>, registry: Registry)
    requires xs <= ys
    ensures Touched(xs, registry) <= Touched(ys, registry)
  {
    forall o | o in Touched(xs, registry) ensures o in Touched(ys, registry) {
      assert ys == xs + ys[|xs|..];
      TouchedAppend(o, xs, ys[|xs|..], registry);
    }
  }

  /** Expands one kept entry: `require` for a file, `getAllModules` for a directory. */
  method Expand(e: Export, fs: FileSystem, registry: Registry, relative: string -> string)
    returns (r: Option<seq<Export>>)
    modifies Touched(EntryDirPaths(e, fs, relative), registry)
    ensures r.None? <==> EntryThrows(e, fs, registry, relative)
    ensures r.Some? ==> r.value == Expansion(e, fs, registry, relative)
    ensures r.Some? ==> forall o :: o in Touched(EntryDirPaths(e, fs, relative), registry) ==>
      o.Fields() == RenamedFields(old(o.Fields()), o, EntryDirPaths(e, fs, relative), registry)
  {
    if e.Plain? && e.value.String? {
      var p := e.value.s;
      if p in fs && fs[p].File? {
        if p !in registry {
          return None;
        }
        return Some([registry[p]]);
      } else if p in fs && fs[p].Dir? {
        r := GetAllModules(p, fs[p].children, registry, relative);
      } else {
        return Some([]);
      }
    } else {
      return Some([e]);
    }
  }

  /** One more kept entry: how throwing, the gathered list and the directory paths grow. */
  lemma GatherNext(kept: seq<Export>, i: nat, fs: FileSystem, registry: Registry, relative: string -> string)
    requires i < |kept|
    ensures AllDirPaths(kept[..i + 1], fs, relative) == AllDirPaths(kept[..i], fs, relative) + EntryDirPaths(kept[i], fs, relative)
    ensures AnyEntryThrows(kept[..i + 1], fs, registry, relative)
      <==> AnyEntryThrows(kept[..i], fs, registry, relative) || EntryThrows(kept[i], fs, registry, relative)
    ensures !AnyEntryThrows(kept[..i + 1], fs, registry, relative) ==>
      Gather(kept[..i + 1], fs, registry, relative) == Gather(kept[..i], fs, registry, relative) + Expansion(kept[i], fs, registry, relative)
  {
    var longer := kept[..i + 1];
    assert longer[..i] == kept[..i];
    assert longer[i] == kept[i];
    assert AllDirPaths(longer, fs, relative) == AllDirPaths(kept[..i], fs, relative) + EntryDirPaths(kept[i], fs, relative);
    ThrowsNext(kept, i, fs, registry, relative);
  }

  lemma ThrowsNext(kept: seq<Export>, i: nat, fs: FileSystem, registry: Registry, relative: string -> string)
    requires i < |kept|
    ensures AnyEntryThrows(kept[..i + 1], fs, registry, relative)
      <==> AnyEntryThrows(kept[..i], fs, registry, relative) || EntryThrows(kept[i], fs, registry, relative)
  {
    if AnyEntryThrows(kept[..i + 1], fs, registry, relative) {
      var j :| 0 <= j < i + 1 && EntryThrows(kept[..i + 1][j], fs, registry, relative);
      if j < i {
        assert kept[..i][j] == kept[..i + 1][j];
      }
    }
    if AnyEntryThrows(kept[..i], fs, registry, relative) {
      var j :| 0 <= j < i && EntryThrows(kept[..i][j], fs, registry, relative);
      assert kept[..i + 1][j] == kept[..i][j];
    }
    if EntryThrows(kept[i], fs, registry, relative) {
      assert kept[..i + 1][i] == kept[i];
    }
  }

  /** Expands entry `i` of `kept`, within the frame of the whole load. */
  method ExpandAt(kept: seq<Export>, i: nat, fs: FileSystem, registry: Registry, relative: string -> string,
                  ghost start: Heap, ghost acc: seq<Export>)
    returns (more: Option<seq<Export>>)
    requires i < |kept|
    requires !AnyEntryThrows(kept[..i], fs, registry, relative)
    requires acc == Gather(kept[..i], fs, registry, relative)
    requires start.Keys == Touched(AllDirPaths(kept, fs, relative), registry)
    requires forall o :: o in start.Keys ==>
      o.Fields() == RenamedFields(start[o], o, AllDirPaths(kept[..i], fs, relative), registry)
    modifies Touched(AllDirPaths(kept, fs, relative), registry)
    ensures more.None? <==> EntryThrows(kept[i], fs, registry, relative)
    ensures more.Some? ==> more.value == Expansion(kept[i], fs, registry, relative)
    ensures more.None? ==> AnyEntryThrows(kept, fs, registry, relative)
    ensures more.Some? ==> !AnyEntryThrows(kept[..i + 1], fs, registry, relative)
    ensures more.Some? ==> acc + more.value == Gather(kept[..i + 1], fs, registry, relative)
    ensures more.Some? ==> forall o :: o in start.Keys ==>
      o.Fields() == RenamedFields(start[o], o, AllDirPaths(kept[..i + 1], fs, relative), registry)
  {
    ghost var all := AllDirPaths(kept, fs, relative);
    ghost var before := AllDirPaths(kept[..i], fs, relative);
    ghost var ps := EntryDirPaths(kept[i], fs, relative);
    GatherNext(kept, i, fs, registry, relative);
    DirPathsOfPrefix(kept, i + 1, fs, relative);
    TouchedOfPrefix(before + ps, all, registry);
    forall o | o in Touched(ps, registry) ensures o in Touched(all, registry) {
      TouchedAppend(o, before, ps, registry);
    }
    ghost var mid := Snapshot(start.Keys);
    more := Expand(kept[i], fs, registry, relative);
    if more.Some? {
      forall o | o in start.Keys
        ensures o.Fields() == RenamedFields(start[o], o, before + ps, registry)
      {
        RenamedAppend(start[o], o, before, ps, registry);
        assert mid[o] == RenamedFields(start[o], o, before, registry);
        if o !in Touched(ps, registry) {
          assert o.Fields() == mid[o];
        }
      }
    }
  }

  /**
   * The loading pipeline up to the checks: filter the entries, expand each in order, and
   * flatten. Directory modules are named after their paths as they are required.
   */
  method GatherModules(entries: seq<Export>, fs: FileSystem, registry: Registry, relative: string -> string)
    returns (r: Option<seq<Export>>)
    modifies Touched(AllDirPaths(KeptEntries(entries, fs), fs, relative), registry)
    ensures var kept := KeptEntries(entries, fs);
      && (r.None? <==> AnyEntryThrows(kept, fs, registry, relative))
      && (r.Some? ==> r.value == Gather(kept, fs, registry, relative))
      && (r.Some? ==> forall o :: o in Touched(AllDirPaths(kept, fs, relative), registry) ==>
            o.Fields() == RenamedFields(old(o.Fields()), o, AllDirPaths(kept, fs, relative), registry))
  {
    var kept := KeptEntries(entries, fs);
    r := ExpandAll(kept, fs, registry, relative);
  }

  /** `.map(expand).reduce(...)` over entries that are already filtered. */
  method ExpandAll(kept: seq<Export>, fs: FileSystem, registry: Registry, relative: string -> string)
    returns (r: Option<seq<Export>>)
    modifies Touched(AllDirPaths(kept, fs, relative), registry)
    ensures r.None? <==> AnyEntryThrows(kept, fs, registry, relative)
    ensures r.Some? ==> r.value == Gather(kept, fs, registry, relative)
    ensures r.Some? ==> forall o :: o in Touched(AllDirPaths(kept, fs, relative), registry) ==>
      o.Fields() == RenamedFields(old(o.Fields()), o, AllDirPaths(kept, fs, relative), registry)
  {
    ghost var start := Snapshot(Touched(AllDirPaths(kept, fs, relative), registry));
    assert AllDirPaths(kept[..0], fs, relative) == [];
    var acc := [];
    var i := 0;
    while i < |kept|
      invariant 0 <= i <= |kept|
      invariant !AnyEntryThrows(kept[..i], fs, registry, relative)
      invariant acc == Gather(kept[..i], fs, registry, relative)
      invariant forall o :: o in start.Keys ==>
        o.Fields() == RenamedFields(start[o], o, AllDirPaths(kept[..i], fs, relative), registry)
    {
      var more := ExpandAt(kept, i, fs, registry, relative, start, acc);
      if more.None? {
        return None;
      }
      acc := acc + more.value;
      i := i + 1;
    }
    assert kept[..i] == kept;
    return Some(acc);
  }

  // ---------------------------------------------------------------- checking

  /** The module objects `checkChainModule` writes to when it checks `es`. */
  function CheckTargets(es: seq<Export>): set<ChainModule>
  {
    set i | 0 <= i < |es| && Called(es[i]).Module? :: Called(es[i]).obj
  }

  lemma CheckTargetAt(es: seq<Export>, i: int)
    requires 0 <= i < |es| && Called(es[i]).Module?
    ensures Called(es[i]).obj in CheckTargets(es)
  {
  }

  /** The fields of module objects at one moment. */
  type Heap = map<ChainModule, ModuleFields>

  function Snapshot(objs: set<ChainModule>): (h: Heap)
    reads objs
    ensures h.Keys == objs
    ensures forall o :: o in objs ==> h[o] == o.Fields()
  {
    map o | o in objs :: o.Fields()
  }

  /** `item.isValid && item.chainModule.isOpen` for a module whose fields were `f` before its check. */
  predicate Keeps(f: ModuleFields)
  {
    CheckFields(f).isValid && Truthy(CheckFields(f).fields.isOpen)
  }

  /** A module is kept iff it is valid and open, once its defaults are in place. */
  lemma KeepsMeans(f: ModuleFields)
    ensures Keeps(f) <==> f.name.String? && f.isMatch.Function? && f.getResponse.Function? && f.isOpen != Boolean(false)
  {
  }

  /**
   * The modules that survive the checks and the `isOpen` filter, in order, given the fields each
   * object had before the checks.
   */
  function Accepted(es: seq<Export>, heap: Heap): (ms: seq<ChainModule>)
    requires CheckTargets(es) <= heap.Keys
    ensures |ms| <= |es|
    ensures forall o :: o in ms ==> o in CheckTargets(es) && Keeps(heap[o])
    ensures forall i :: 0 <= i < |es| && Called(es[i]).Module? && Keeps(heap[Called(es[i]).obj]) ==> Called(es[i]).obj in ms
  {
    if es == [] then []
    else
      var init := es[..|es| - 1];
      var last := Called(es[|es| - 1]);
      assert forall i :: 0 <= i < |init| ==> init[i] == es[i];
      assert CheckTargets(init) <= CheckTargets(es) by {
        forall o | o in CheckTargets(init) ensures o in CheckTargets(es) {
          var i :| 0 <= i < |init| && Called(init[i]).Module? && Called(init[i]).obj == o;
          CheckTargetAt(es, i);
        }
      }
      assert last.Module? ==> last.obj in CheckTargets(es) by {
        if last.Module? { CheckTargetAt(es, |es| - 1); }
      }
      Accepted(init, heap) + (if last.Module? && Keeps(heap[last.obj]) then [last.obj] else [])
  }

  /** The objects two lists of exports in a row yield are those each yields. */
  lemma CheckTargetsAppend(xs: seq<Export>, ys: seq<Export>)
    ensures CheckTargets(xs + ys) == CheckTargets(xs) + CheckTargets(ys)
  {
    var zs := xs + ys;
    forall o | o in CheckTargets(zs) ensures o in CheckTargets(xs) + CheckTargets(ys) {
      var i :| 0 <= i < |zs| && Called(zs[i]).Module? && Called(zs[i]).obj == o;
      if i < |xs| {
        assert zs[i] == xs[i];
        CheckTargetAt(xs, i);
      } else {
        assert zs[i] == ys[i - |xs|];
        CheckTargetAt(ys, i - |xs|);
      }
    }
    forall o | o in CheckTargets(xs) + CheckTargets(ys) ensures o in CheckTargets(zs) {
      if o in CheckTargets(xs) {
        var i :| 0 <= i < |xs| && Called(xs[i]).Module? && Called(xs[i]).obj == o;
        assert zs[i] == xs[i];
        CheckTargetAt(zs, i);
      } else {
        var i :| 0 <= i < |ys| && Called(ys[i]).Module? && Called(ys[i]).obj == o;
        assert zs[|xs| + i] == ys[i];
        CheckTargetAt(zs, |xs| + i);
      }
    }
  }

  /**
   * The modules two lists of exports in a row keep are those each keeps, in turn, and one export
   * is kept iff it is (or its factory returns) a valid, open module: the checks keep the exports'
   * order, and an object listed twice is kept twice.
   */
  lemma {:induction false} AcceptedAppend(xs: seq<Export>, ys: seq<Export>, heap: Heap)
    requires CheckTargets(xs + ys) <= heap.Keys
    ensures CheckTargets(xs) <= heap.Keys && CheckTargets(ys) <= heap.Keys
    ensures Accepted(xs + ys, heap) == Accepted(xs, heap) + Accepted(ys, heap)
    ensures |ys| == 1 ==>
      Accepted(ys, heap) == (var c := Called(ys[0]); if c.Module? && Keeps(heap[c.obj]) then [c.obj] else [])
    decreases |ys|
  {
    CheckTargetsAppend(xs, ys);
    if ys == [] {
      assert xs + ys == xs;
    } else {
      var zs := xs + ys;
      var init := ys[..|ys| - 1];
      var last := Called(ys[|ys| - 1]);
      var tail := if last.Module? && Keeps(heap[last.obj]) then [last.obj] else [];
      assert CheckTargets(xs + init) <= heap.Keys && CheckTargets(init) <= heap.Keys by {
        assert ys == init + [ys[|ys| - 1]];
        CheckTargetsAppend(init, [ys[|ys| - 1]]);
        CheckTargetsAppend(xs, init);
      }
      assert Accepted(zs, heap) == Accepted(xs + init, heap) + tail by {
        assert zs[..|zs| - 1] == xs + init;
        assert zs[|zs| - 1] == ys[|ys| - 1];
      }
      assert Accepted(ys, heap) == Accepted(init, heap) + tail by {
        assert init == [] ==> Accepted(init, heap) == [];
      }
      AcceptedAppend(xs, init, heap);
      RegroupLast(Accepted(zs, heap), Accepted(xs, heap), Accepted(init, heap), Accepted(ys, heap), tail);
      if |ys| == 1 {
        assert init == [] && Called(ys[0]) == last;
      }
    }
  }

  /**
   * `.map(m => checkChainModule(m)).filter(item => item.isValid && item.chainModule.isOpen)
   * .map(item => item.chainModule)`. An object listed twice is checked twice; the second check
   * finds the defaults of the first in place and gives the same verdict.
   */
  method CheckAll(es: seq<Export>) returns (accepted: seq<ChainModule>)
    modifies CheckTargets(es)
    ensures accepted == Accepted(es, old(Snapshot(CheckTargets(es))))
    ensures forall o :: o in CheckTargets(es) ==> o.Fields() == CheckFields(old(o.Fields())).fields
  {
    ghost var before := Snapshot(CheckTargets(es));
    var items := CheckEach(es, before);
    accepted := KeepOpen(es, items, before);
  }

  /** `.map(m => checkChainModule(m))`: the verdict and the checked value of every entry. */
  method CheckEach(es: seq<Export>, ghost before: Heap) returns (items: seq<(bool, Export)>)
    requires before == Snapshot(CheckTargets(es))
    modifies CheckTargets(es)
    ensures |items| == |es|
    ensures forall j :: 0 <= j < |es| ==> items[j].1 == Called(es[j])
    ensures forall j :: 0 <= j < |es| ==>
      items[j].0 == (Called(es[j]).Module? && CheckFields(before[Called(es[j]).obj]).isValid)
    ensures forall o :: o in CheckTargets(es) ==> o.Fields() == CheckFields(before[o]).fields
  {
    items := [];
    var i := 0;
    while i < |es|
      invariant 0 <= i <= |es|
      invariant |items| == i
      invariant forall j :: 0 <= j < i ==> items[j].1 == Called(es[j])
      invariant forall j :: 0 <= j < i ==>
        items[j].0 == (Called(es[j]).Module? && CheckFields(before[Called(es[j]).obj]).isValid)
      invariant forall o :: o in CheckTargets(es) ==>
        o.Fields() == (if o in CheckTargets(es[..i]) then CheckFields(before[o]).fields else before[o])
    {
      var valid, cm := CheckOne(es, i, before);
      items := items + [(valid, cm)];
      i := i + 1;
    }
    assert es[..i] == es;
  }

  /** `.filter(item => item.isValid && item.chainModule.isOpen).map(item => item.chainModule)`. */
  method KeepOpen(es: seq<Export>, items: seq<(bool, Export)>, ghost before: Heap) returns (accepted: seq<ChainModule>)
    requires before.Keys == CheckTargets(es)
    requires |items| == |es|
    requires forall j :: 0 <= j < |es| ==> items[j].1 == Called(es[j])
    requires forall j :: 0 <= j < |es| ==>
      items[j].0 == (Called(es[j]).Module? && CheckFields(before[Called(es[j]).obj]).isValid)
    requires forall o :: o in CheckTargets(es) ==> o.Fields() == CheckFields(before[o]).fields
    ensures accepted == Accepted(es, before)
  {
    accepted := [];
    var k := 0;
    while k < |items|
      invariant 0 <= k <= |items|
      invariant accepted == Accepted(es[..k], before)
    {
      assert es[..k + 1][..k] == es[..k];
      if items[k].1.Module? {
        CheckTargetAt(es, k);
      }
      if items[k].0 && Truthy(items[k].1.obj.isOpen) {
        accepted := accepted + [items[k].1.obj];
      }
      k := k + 1;
    }
    assert es[..k] == es;
  }

  /** The check of entry `i`, given that the entries before it have been checked. */
  method CheckOne(es: seq<Export>, i: nat, ghost before: Heap) returns (valid: bool, cm: Export)
    requires i < |es|
    requires before.Keys == CheckTargets(es)
    requires forall o :: o in CheckTargets(es) ==>
      o.Fields() == (if o in CheckTargets(es[..i]) then CheckFields(before[o]).fields else before[o])
    modifies CheckTargets(es)
    ensures cm == Called(es[i])
    ensures valid == (cm.Module? && CheckFields(before[cm.obj]).isValid)
    ensures forall o :: o in CheckTargets(es) ==>
      o.Fields() == (if o in CheckTargets(es[..i + 1]) then CheckFields(before[o]).fields else before[o])
  {
    if Called(es[i]).Module? {
      CheckTargetAt(es, i);
      CheckIsIdempotent(before[Called(es[i]).obj]);
    }
    valid, cm := CheckChainModule(es[i]);
    forall o | o in CheckTargets(es) ensures o in CheckTargets(es[..i + 1]) <==> o in CheckTargets(es[..i]) || (cm.Module? && o == cm.obj) {
      if o in CheckTargets(es[..i + 1]) {
        var j :| 0 <= j < i + 1 && Called(es[..i + 1][j]).Module? && Called(es[..i + 1][j]).obj == o;
        if j < i {
          assert es[..i][j] == es[..i + 1][j];
          CheckTargetAt(es[..i], j);
        }
      }
      if o in CheckTargets(es[..i]) {
        var j :| 0 <= j < i && Called(es[..i][j]).Module? && Called(es[..i][j]).obj == o;
        assert es[..i + 1][j] == es[..i][j];
        CheckTargetAt(es[..i + 1], j);
      }
      if cm.Module? && o == cm.obj {
        assert es[..i + 1][i] == es[i];
        CheckTargetAt(es[..i + 1], i);
      }
    }
  }

  // ---------------------------------------------------------------- the whole load

  /** Every module object the load may write to: directory modules it names, modules it checks. */
  function LoadTargets(entries: seq<Export>, fs: FileSystem, registry: Registry, relative: string -> string): set<ChainModule>
  {
    var kept := KeptEntries(entries, fs);
    Touched(AllDirPaths(kept, fs, relative), registry)
      + (if AnyEntryThrows(kept, fs, registry, relative) then {} else CheckTargets(Gather(kept, fs, registry, relative)))
  }

  /** The fields after requiring `ps`, for every object of `h`. */
  function RenamedHeap(h: Heap, ps: seq<string>, registry: Registry): (g: Heap)
    ensures g.Keys == h.Keys
    ensures forall o :: o in h ==> g[o] == RenamedFields(h[o], o, ps, registry)
  {
    map o | o in h :: RenamedFields(h[o], o, ps, registry)
  }

  /** Loading throws: some kept entry's expansion throws. */
  predicate LoadThrows(entries: seq<Export>, fs: FileSystem, registry: Registry, relative: string -> string)
  {
    AnyEntryThrows(KeptEntries(entries, fs), fs, registry, relative)
  }

  /**
   * The modules `chainResponse` keeps, given the fields of the module objects before loading:
   * the gathered exports, checked after every directory module has been named.
   */
  function LoadResult(entries: seq<Export>, fs: FileSystem, registry: Registry, relative: string -> string, heap: Heap): (ms: seq<ChainModule>)
    requires !LoadThrows(entries, fs, registry, relative)
    requires LoadTargets(entries, fs, registry, relative) <= heap.Keys
  {
    var kept := KeptEntries(entries, fs);
    Accepted(Gather(kept, fs, registry, relative), RenamedHeap(heap, AllDirPaths(kept, fs, relative), registry))
  }

  /** Whether an entry is kept depends only on the fields of the objects the checks see. */
  lemma {:induction false} AcceptedReadsTargets(es: seq<Export>, h1: Heap, h2: Heap)
    requires CheckTargets(es) <= h1.Keys && CheckTargets(es) <= h2.Keys
    requires forall o :: o in CheckTargets(es) ==> h1[o] == h2[o]
    ensures Accepted(es, h1) == Accepted(es, h2)
  {
    if es != [] {
      var init := es[..|es| - 1];
      assert forall i :: 0 <= i < |init| ==> init[i] == es[i];
      assert CheckTargets(init) <= CheckTargets(es) by {
        forall o | o in CheckTargets(init) ensures o in CheckTargets(es) {
          var i :| 0 <= i < |init| && Called(init[i]).Module? && Called(init[i]).obj == o;
          CheckTargetAt(es, i);
        }
      }
      if Called(es[|es| - 1]).Module? {
        CheckTargetAt(es, |es| - 1);
      }
      AcceptedReadsTargets(init, h1, h2);
    }
  }

  /**
   * The fields of `o` after a load that does not throw, given its fields `f` before: named after
   * the first directory path that yields it, then given the check's defaults if it is checked.
   */
  function LoadedFields(f: ModuleFields, o: ChainModule, entries: seq<Export>, fs: FileSystem, registry: Registry,
                        relative: string -> string): ModuleFields
    requires !LoadThrows(entries, fs, registry, relative)
  {
    var kept := KeptEntries(entries, fs);
    var g := RenamedFields(f, o, AllDirPaths(kept, fs, relative), registry);
    if o in CheckTargets(Gather(kept, fs, registry, relative)) then CheckFields(g).fields else g
  }

  /**
   * Every module the load keeps ends up usable: a string name, `isOpen` true, a numeric priority
   * (its own, or 100 when it had none), and callable `isMatch` and `getResponse`.
   */
  lemma LoadedModulesAreReady(entries: seq<Export>, fs: FileSystem, registry: Registry, relative: string -> string,
                              heap: Heap, o: ChainModule)
    requires !LoadThrows(entries, fs, registry, relative)
    requires LoadTargets(entries, fs, registry, relative) <= heap.Keys
    requires o in LoadResult(entries, fs, registry, relative, heap)
    ensures o in heap
    ensures var g := LoadedFields(heap[o], o, entries, fs, registry, relative);
      && g.name.String? && g.isOpen == Boolean(true)
      && g.priority == (if heap[o].priority.Number? then heap[o].priority else Number(100))
      && g.isMatch.Function? && g.getResponse.Function?
  {
    var kept := KeptEntries(entries, fs);
    var es := Gather(kept, fs, registry, relative);
    var renamed := RenamedHeap(heap, AllDirPaths(kept, fs, relative), registry);
    assert o in CheckTargets(es) && Keeps(renamed[o]);
    KeepsMeans(renamed[o]);
  }

  /** The checks over the gathered exports `es`, once the objects `renamed` lists hold its fields. */
  method CheckGathered(es: seq<Export>, ghost renamed: Heap) returns (accepted: seq<ChainModule>)
    requires CheckTargets(es) <= renamed.Keys
    requires forall o :: o in renamed ==> o.Fields() == renamed[o]
    modifies CheckTargets(es)
    ensures accepted == Accepted(es, renamed)
    ensures forall o :: o in renamed ==>
      o.Fields() == (if o in CheckTargets(es) then CheckFields(renamed[o]).fields else renamed[o])
  {
    ghost var mid := Snapshot(CheckTargets(es));
    assert forall o :: o in CheckTargets(es) ==> mid[o] == renamed[o];
    accepted := CheckAll(es);
    AcceptedReadsTargets(es, mid, renamed);
  }

  /** Loading: gather the entries, then check them and keep the valid, open modules. */
  method LoadModules(entries: seq<Export>, fs: FileSystem, registry: Registry, relative: string -> string)
    returns (r: Option<seq<ChainModule>>)
    modifies LoadTargets(entries, fs, registry, relative)
    ensures r.None? <==> LoadThrows(entries, fs, registry, relative)
    ensures r.Some? ==> r.value == LoadResult(entries, fs, registry, relative,
      old(Snapshot(LoadTargets(entries, fs, registry, relative))))
    ensures r.Some? ==> var before := old(Snapshot(LoadTargets(entries, fs, registry, relative)));
      forall o :: o in before ==> o.Fields() == LoadedFields(before[o], o, entries, fs, registry, relative)
  {
    ghost var kept := KeptEntries(entries, fs);
    ghost var all := AllDirPaths(kept, fs, relative);
    ghost var targets := LoadTargets(entries, fs, registry, relative);
    ghost var start := Snapshot(targets);
    assert Touched(all, registry) <= targets;
    var gathered := GatherModules(entries, fs, registry, relative);
    if gathered.None? {
      return None;
    }
    assert CheckTargets(gathered.value) <= targets;
    ghost var renamed := RenamedHeap(start, all, registry);
    assert forall o :: o in start ==> o.Fields() == renamed[o];
    var accepted := CheckGathered(gathered.value, renamed);
    LoadedFieldsAfterChecks(entries, fs, registry, relative, start);
    return Some(accepted);
  }

  /** `LoadedFields` of an object is its renamed fields, given the check's defaults if it is checked. */
  lemma LoadedFieldsAfterChecks(entries: seq<Export>, fs: FileSystem, registry: Registry, relative: string -> string,
                                start: Heap)
    requires !LoadThrows(entries, fs, registry, relative)
    ensures var kept := KeptEntries(entries, fs);
      var renamed := RenamedHeap(start, AllDirPaths(kept, fs, relative), registry);
      var es := Gather(kept, fs, registry, relative);
      forall o :: o in start ==>
        LoadedFields(start[o], o, entries, fs, registry, relative)
          == (if o in CheckTargets(es) then CheckFields(renamed[o]).fields else renamed[o])
  {
  }

  // ---------------------------------------------------------------- the middleware

  /** The `modules` argument of `chainResponse`. */
  datatype ModulesArg = ArrayArg(items: seq<Export>) | NotArray

  /** What `chainResponse` gives back: `undefined`, a throw during loading, or a middleware. */
  datatype Built = NoMiddleware | LoadThrew | Built(middleware: Middleware)

  /** `` `current switch is ${on}` ``. */
  function SwitchStatus(on: bool): (s: string)
    ensures s == "current switch is " + (if on then "true" else "false")
  {
    "current switch is " + ToText(Boolean(on))
  }

  /** The middleware function `chainResponse` returns, over its loaded modules and the shared options. */
  class Middleware {
    const options: ChainOptions
    const modules: seq<ChainModule>

    constructor (options: ChainOptions, modules: seq<ChainModule>)
      ensures this.options == options && this.modules == modules
    {
      this.options := options;
      this.modules := modules;
    }

    /**
     * One request with path `path`. The switch path flips the switch and reports the new state
     * without consulting any module; while the switch is off every other request only calls
     * `next()`; otherwise the request is dispatched through the chain.
     */
    method Handle(path: string, probe: Prober, respond: Responder) returns (e: Effects)
      modifies options
      ensures path == old(options.switchPath) ==>
        && options.Current() == old(options.Current()).(currentSwitchOn := !old(options.currentSwitchOn))
        && e == Effects([], Some(String(SwitchStatus(options.currentSwitchOn))), false)
      ensures path != old(options.switchPath) ==> options.Current() == old(options.Current())
      ensures path != old(options.switchPath) && !options.currentSwitchOn ==> e == Defer
      ensures path != old(options.switchPath) && options.currentSwitchOn ==>
        e == Dispatch(Current, modules, probe, respond)
    {
      if options.switchPath == path {
        options.currentSwitchOn := !options.currentSwitchOn;
        return Effects([], Some(String(SwitchStatus(options.currentSwitchOn))), false);
      }
      if !options.currentSwitchOn {
        return Defer;
      }
      e := Dispatch(Current, modules, probe, respond);
    }
  }

  /** Two requests to the switch path restore the switch, and neither consults a module. */
  method ToggleTwice(mw: Middleware, probe: Prober, respond: Responder) returns (first: Effects, second: Effects)
    modifies mw.options
    ensures mw.options.Current() == old(mw.options.Current())
    ensures first == Effects([], Some(String(SwitchStatus(!old(mw.options.currentSwitchOn)))), false)
    ensures second == Effects([], Some(String(SwitchStatus(old(mw.options.currentSwitchOn)))), false)
  {
    var path := mw.options.switchPath;
    first := mw.Handle(path, probe, respond);
    second := mw.Handle(path, probe, respond);
  }

  function ArgTargets(modules: ModulesArg, fs: FileSystem, registry: Registry, relative: string -> string): set<ChainModule>
  {
    if modules.ArrayArg? then LoadTargets(modules.items, fs, registry, relative) else {}
  }

  /**
   * `chainResponse(modules, options)`: a non-array `modules` gives `undefined` before anything
   * else happens; otherwise the shared options are updated, the modules loaded, and a middleware
   * over the kept modules returned.
   */
  method MakeChainResponse(modules: ModulesArg, options: Option<OptionsArg>, settings: ChainOptions,
                           fs: FileSystem, registry: Registry, relative: string -> string)
    returns (b: Built)
    modifies settings, ArgTargets(modules, fs, registry, relative)
    ensures modules.NotArray? ==> b == NoMiddleware && settings.Current() == old(settings.Current())
    ensures modules.ArrayArg? ==> settings.Current() == Apply(old(settings.Current()), options)
    ensures modules.ArrayArg? ==> (b.LoadThrew? <==> LoadThrows(modules.items, fs, registry, relative))
    ensures modules.ArrayArg? ==> !b.NoMiddleware?
    ensures b.Built? ==> fresh(b.middleware) && b.middleware.options == settings
    ensures b.Built? ==>
      && modules.ArrayArg?
      && !LoadThrows(modules.items, fs, registry, relative)
      && b.middleware.modules == LoadResult(modules.items, fs, registry, relative,
           old(Snapshot(LoadTargets(modules.items, fs, registry, relative))))
    ensures b.Built? ==> var before := old(Snapshot(LoadTargets(modules.items, fs, registry, relative)));
      forall o :: o in before ==> o.Fields() == LoadedFields(before[o], o, modules.items, fs, registry, relative)
  {
    if modules.NotArray? {
      return NoMiddleware;
    }
    ghost var before := Snapshot(LoadTargets(modules.items, fs, registry, relative));
    settings.Update(options);
    assert Snapshot(LoadTargets(modules.items, fs, registry, relative)) == before;
    var loaded := LoadModules(modules.items, fs, registry, relative);
    if loaded.None? {
      return LoadThrew;
    }
    var mw := new Middleware(settings, loaded.value);
    return Built(mw);
  }
}
