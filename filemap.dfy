/**
 * The file-map modules: `getLocalFileMapModule` of src/modules/local-file-map.js, the test module
 * test/express-sample/modules/url-query-map.js and the sample module
 * samples/webpack-dev-sever-sample/chain-response/modules/local-file-map.js. Each walks a directory
 * on every request, picks the file the request names and answers with its content, labelled with
 * the content type of its extension.
 */
module FileMap {
  import opened Wrappers
  import opened Js
  import opened Files
  import opened ModuleCheck
  import opened Responses
  import opened Settle
  import opened Chain
  import opened ChainResponse

  // ---------------------------------------------------------------- picking a file

  /** The index of the first file satisfying `p`, if any. */
  function First(files: seq<FileInfo>, p: FileInfo -> bool): (r: Option<nat>)
    ensures r.Some? ==> r.value < |files| && p(files[r.value])
    ensures r.Some? ==> forall j :: 0 <= j < r.value ==> !p(files[j])
    ensures r.None? ==> forall j :: 0 <= j < |files| ==> !p(files[j])
  {
    if files == [] then None
    else if p(files[0]) then Some(0)
    else
      var r := First(files[1..], p);
      assert forall j :: 1 <= j < |files| ==> files[j] == files[1..][j - 1];
      if r.Some? then Some(r.value + 1) else None
  }

  /** Two tests that agree on every file find the same first file. */
  lemma {:induction false} FirstAgrees(files: seq<FileInfo>, p: FileInfo -> bool, q: FileInfo -> bool)
    requires forall j :: 0 <= j < |files| ==> p(files[j]) == q(files[j])
    ensures First(files, p) == First(files, q)
  {
    if files != [] {
      assert forall j :: 0 <= j < |files| - 1 ==> files[1..][j] == files[j + 1];
      FirstAgrees(files[1..], p, q);
    }
  }

  /** `f.fileName === name`. */
  predicate NameIs(f: FileInfo, name: JsValue)
  {
    name == String(f.fileName)
  }

  /**
   * `f.fileNameWithoutExt === name`, or `==` when `loose`. A file without extension has no stem,
   * which reads as `undefined`; loosely, `undefined == null` also holds.
   */
  predicate StemIs(f: FileInfo, name: JsValue, loose: bool)
  {
    OfOptional(f.fileNameWithoutExt) == name || (loose && f.fileNameWithoutExt.None? && name.Null?)
  }

  /**
   * `files.filter(f => f.fileName === name)[0] || files.filter(f => f.fileNameWithoutExt === name)[0]`
   * (with `==` in the second filter when `loose`): the first file with exactly that name, else the
   * first file with that stem.
   */
  function SelectFile(files: seq<FileInfo>, name: JsValue, loose: bool): (r: Option<FileInfo>)
    ensures r.Some? ==> r.value in files && (NameIs(r.value, name) || StemIs(r.value, name, loose))
    ensures r.None? <==> forall i :: 0 <= i < |files| ==> !NameIs(files[i], name) && !StemIs(files[i], name, loose)
    ensures (exists i :: 0 <= i < |files| && NameIs(files[i], name)) ==>
      exists i :: && 0 <= i < |files| && r == Some(files[i]) && NameIs(files[i], name)
                  && forall j :: 0 <= j < i ==> !NameIs(files[j], name)
    ensures (forall i :: 0 <= i < |files| ==> !NameIs(files[i], name)) && r.Some? ==>
      exists i :: && 0 <= i < |files| && r == Some(files[i]) && StemIs(files[i], name, loose)
                  && forall j :: 0 <= j < i ==> !StemIs(files[j], name, loose)
  {
    var byName := First(files, f => NameIs(f, name));
    if byName.Some? then Some(files[byName.value])
    else
      var byStem := First(files, f => StemIs(f, name, loose));
      if byStem.Some? then Some(files[byStem.value]) else None
  }

  /** An exact file name wins over any file, earlier or not, whose stem is that name. */
  lemma ExactNameWins(files: seq<FileInfo>, name: JsValue, loose: bool, i: nat)
    requires i < |files| && NameIs(files[i], name)
    requires forall j :: 0 <= j < i ==> !NameIs(files[j], name)
    ensures SelectFile(files, name, loose) == Some(files[i])
  {
    var byName := First(files, f => NameIs(f, name));
    assert byName.Some?;
  }

  /** For a string name or `undefined` the loose and the strict comparisons pick the same file. */
  lemma LooseEqualsStrict(files: seq<FileInfo>, name: JsValue)
    requires name.String? || name.Undefined?
    ensures SelectFile(files, name, true) == SelectFile(files, name, false)
  {
    FirstAgrees(files, f => StemIs(f, name, true), f => StemIs(f, name, false));
  }

  /**
   * A missing name matches: no file is named `undefined`, but every file without extension has the
   * stem `undefined`, so the first of those is picked.
   */
  lemma MissingNameSelectsExtensionless(files: seq<FileInfo>, loose: bool)
    ensures SelectFile(files, Undefined, loose).Some? <==> exists i :: 0 <= i < |files| && files[i].fileNameWithoutExt.None?
    ensures SelectFile(files, Undefined, loose).Some? ==>
      exists i :: && 0 <= i < |files| && SelectFile(files, Undefined, loose) == Some(files[i])
                  && files[i].fileNameWithoutExt.None?
                  && forall j :: 0 <= j < i ==> files[j].fileNameWithoutExt.Some?
  {
    assert forall f: FileInfo :: StemIs(f, Undefined, loose) <==> f.fileNameWithoutExt.None?;
    assert forall i :: 0 <= i < |files| ==> !NameIs(files[i], Undefined);
  }

  /** Picks a file only for a string name: the selection the file-map modules evidently intend. */
  function SelectRequestedFile(files: seq<FileInfo>, name: JsValue, loose: bool): (r: Option<FileInfo>)
    ensures r.Some? ==>
      (name.String? && r.value in files && (r.value.fileName == name.s || r.value.fileNameWithoutExt == Some(name.s)))
    ensures name.String? ==> r == SelectFile(files, name, loose)
    ensures !name.String? ==> r.None?
  {
    if name.String? then SelectFile(files, name, loose) else None
  }

  /** `match ? Promise.resolve(match) : false`. */
  function Found(m: Option<FileInfo>): (r: MatchReturn)
    ensures m.Some? ==> r == Promise(Resolves(FileRecord(m.value)))
    ensures m.None? ==> r == Bool(false)
  {
    if m.Some? then Promise(Resolves(FileRecord(m.value))) else Bool(false)
  }

  // ---------------------------------------------------------------- answering

  /** `extTypeMaps` as each of the three modules declares it. */
  const DefaultTypes: map<string, string> :=
    map[".json" := "application/json", ".js" := "application/javascript", ".html" := "text/html"]

  /** `extTypeMaps[extName] || "text/plain"`. */
  function ContentTypeFor(types: map<string, string>, ext: string): (t: string)
    ensures t != ""
    ensures ext in types && types[ext] != "" ==> t == types[ext]
    ensures !(ext in types && types[ext] != "") ==> t == "text/plain"
  {
    if ext in types && types[ext] != "" then types[ext] else "text/plain"
  }

  /** The declared table labels JSON, scripts and pages, and everything else as plain text. */
  lemma DefaultContentTypes(ext: string)
    ensures ContentTypeFor(DefaultTypes, ".json") == "application/json"
    ensures ContentTypeFor(DefaultTypes, ".js") == "application/javascript"
    ensures ContentTypeFor(DefaultTypes, ".html") == "text/html"
    ensures ext !in {".json", ".js", ".html"} ==> ContentTypeFor(DefaultTypes, ext) == "text/plain"
  {
  }

  /**
   * `getResponse` of the file-map modules: `readFileSync(fullPath)` of the matched file, answered
   * with one `Content-Type` header. `read` stands for the file system (None: the read throws).
   * A match result that is not a file record leaves `fullPath` undefined, and reading that throws.
   */
  function FileResponse(types: map<string, string>, read: string -> Option<string>, matchResult: JsValue): (out: StepOutcome)
    ensures out.Returned? <==> matchResult.FileRecord? && read(matchResult.file.fullPath).Some?
    ensures !out.Returned? ==> out == Threw(false)
    ensures out.Returned? ==>
      && out.value.Some?
      && out.value.value.content == String(read(matchResult.file.fullPath).value)
      && out.value.value.headers == Dict([Header("Content-Type", ContentTypeFor(types, matchResult.file.extName))])
      && !Truthy(out.value.value.continueNext)
  {
    if matchResult.FileRecord? && read(matchResult.file.fullPath).Some? then
      Returned(Some(Response(
        String(read(matchResult.file.fullPath).value),
        Dict([Header("Content-Type", ContentTypeFor(types, matchResult.file.extName))]),
        Undefined)))
    else Threw(false)
  }

  /**
   * What the current engine does with a served file when the module is the last in the chain: it
   * sets the file's content type and sends the content, and never calls `next()`. An empty file is
   * not sent either, so the request is left without an answer.
   */
  lemma ServedFile(types: map<string, string>, read: string -> Option<string>, file: FileInfo)
    requires read(file.fullPath).Some?
    ensures FileResponse(types, read, FileRecord(file)).Returned?
    ensures var e := Decide(Current, FileResponse(types, read, FileRecord(file)).value);
      && e.appended == [Header("Content-Type", ContentTypeFor(types, file.extName))]
      && (read(file.fullPath).value != "" ==> e.sent == Some(String(read(file.fullPath).value)))
      && (read(file.fullPath).value == "" ==> e.sent.None?)
      && !e.nextCalled
  {
  }

  /** Unless the file can be read, the module throws and the chain forgets what came before it. */
  lemma UnreadableFileThrows(types: map<string, string>, read: string -> Option<string>, engine: Engine,
                             before: ChainState, c: Candidate, respond: Responder)
    requires !c.matchResult.FileRecord? || read(c.matchResult.file.fullPath).None?
    requires before.ChainState? ==>
      respond(c.handler, c.matchResult, before.prevResponse, before.handledModules) == FileResponse(types, read, c.matchResult)
    ensures FileResponse(types, read, c.matchResult) == Threw(false)
    ensures Step(engine, before, c, respond) == Initial
  {
  }

  // ---------------------------------------------------------------- src/modules/local-file-map.js

  /** The module-wide `extTypeMaps` table; every factory call may add to it, for all modules made so far. */
  class ContentTypeRegistry {
    var types: map<string, string>

    constructor ()
      ensures types == DefaultTypes
    {
      types := DefaultTypes;
    }

    /** `Object.keys(fileExtContentTypeMaps).map(key => extTypeMaps[key] = fileExtContentTypeMaps[key])`. */
    method Merge(overrides: map<string, string>)
      modifies this
      ensures types == old(types) + overrides
    {
      var rest := overrides.Keys;
      while rest != {}
        invariant rest <= overrides.Keys
        invariant types == old(types) + map k | k in overrides.Keys - rest :: overrides[k]
        decreases rest
      {
        var k :| k in rest;
        ghost var done := overrides.Keys - rest;
        types := types[k := overrides[k]];
        rest := rest - {k};
        assert overrides.Keys - rest == done + {k};
      }
      assert overrides == map k | k in overrides.Keys - rest :: overrides[k];
    }
  }

  /** The properties of the module `getLocalFileMapModule` returns; it sets no priority. */
  const LocalFileMapFields := ModuleFields(String("local-file-map"), Boolean(true), Undefined, Function("isMatch"), Function("getResponse"))

  /** `getLocalFileMapModule(fileDir, getFileNameByReq, fileExtContentTypeMaps)`; a missing table adds nothing. */
  method GetLocalFileMapModule(registry: ContentTypeRegistry, overrides: Option<map<string, string>>)
    returns (m: ChainModule)
    modifies registry
    ensures fresh(m) && m.Fields() == LocalFileMapFields
    ensures overrides.None? ==> registry.types == old(registry.types)
    ensures overrides.Some? ==> registry.types == old(registry.types) + overrides.value
  {
    if overrides.Some? {
      registry.Merge(overrides.value);
    }
    m := new ChainModule(LocalFileMapFields);
  }

  /** The module passes the check, stays open and gets the default priority 100. */
  lemma LocalFileMapIsKept()
    ensures Keeps(LocalFileMapFields)
    ensures CheckFields(LocalFileMapFields).fields.priority == Number(100)
  {
    KeepsMeans(LocalFileMapFields);
  }

  /**
   * `isMatch`: walks `fileDir` (the tree `children`) and picks the file named by what
   * `getFileNameByReq` returned for the request.
   */
  function LocalFileMapIsMatch(fileDir: string, children: seq<Node>, relative: string -> string, fileName: JsValue): (r: MatchReturn)
    ensures r.Promise? || r == Bool(false)
    ensures r.Promise? ==>
      (r.settles.Resolves? && r.settles.value.FileRecord? && r.settles.value.file in Walk(fileDir, children, relative))
    ensures var files := Walk(fileDir, children, relative);
      r.Promise? <==> exists i :: 0 <= i < |files| && (NameIs(files[i], fileName) || StemIs(files[i], fileName, false))
    ensures r.Promise? ==> SelectFile(Walk(fileDir, children, relative), fileName, false) == Some(r.settles.value.file)
  {
    Found(SelectFile(Walk(fileDir, children, relative), fileName, false))
  }

  /** `getResponse`: labels the file with the registry's table as it stands when the request comes. */
  function LocalFileMapResponse(registry: ContentTypeRegistry, read: string -> Option<string>, matchResult: JsValue): StepOutcome
    reads registry
  {
    FileResponse(registry.types, read, matchResult)
  }

  // ---------------------------------------------------------------- url-query-map

  /** The test module's properties: open, named "url-query-map", no priority. */
  const UrlQueryMapFields := ModuleFields(String("url-query-map"), Boolean(true), Undefined, Function("isMatch"), Function("getResponse"))

  /** The module is exported as a factory that returns the same object on every call. */
  function UrlQueryMapExport(o: ChainModule): (e: Export)
    ensures Called(e) == Module(o) && Called(Called(e)) == Called(e)
  {
    Factory(Module(o))
  }

  /** `isMatch` as written: only `/getdata` is served, with the file named by the `_action` parameter. */
  function UrlQueryMapIsMatchAsWritten(path: string, query: Query, mockDir: string, children: seq<Node>, relative: string -> string): (r: MatchReturn)
    ensures path != "/getdata" ==> r == Bool(false)
    ensures r.Promise? || r == Bool(false)
    ensures r.Promise? ==>
      && r.settles.Resolves? && r.settles.value.FileRecord?
      && SelectFile(Walk(mockDir, children, relative), Param(query, "_action"), true) == Some(r.settles.value.file)
  {
    if path != "/getdata" then Bool(false)
    else Found(SelectFile(Walk(mockDir, children, relative), Param(query, "_action"), true))
  }

  /** A walk of a directory holding one file without extension. */
  lemma WalkOfOneFile(dir: string, name: string, relative: string -> string)
    requires '.' !in name
    ensures Walk(dir, [File(name)], relative) == [FileInfo(Join(dir, name), dir, name, "", None, None)]
  {
    assert [File(name)][..0] == [];
    assert LastDot(name) == -1;
    assert SubdirFiles(dir, [File(name)], relative) == [];
    assert OwnFiles(dir, [File(name)], relative) == [Describe(dir, name, relative)];
  }

  /**
   * A request for `/getdata` without `_action` is answered with a file nobody asked for, here
   * `README` of a mock directory holding only that file.
   */
  lemma GetdataWithoutAction(mockDir: string, relative: string -> string)
    ensures var readme := FileInfo(Join(mockDir, "README"), mockDir, "README", "", None, None);
      UrlQueryMapIsMatchAsWritten("/getdata", map[], mockDir, [File("README")], relative)
        == Promise(Resolves(FileRecord(readme)))
  {
    WalkOfOneFile(mockDir, "README", relative);
    SelectExtensionless(FileInfo(Join(mockDir, "README"), mockDir, "README", "", None, None));
    assert Param(map[], "_action") == Undefined;
  }

  /** A missing name, compared loosely, picks the only file of a list when it has no extension. */
  lemma SelectExtensionless(f: FileInfo)
    requires f.fileNameWithoutExt.None?
    ensures SelectFile([f], Undefined, true) == Some(f)
  {
    assert StemIs(f, Undefined, true) && !NameIs(f, Undefined);
  }

  /** `isMatch` with the evidently intended selection: a missing `_action` matches nothing. */
  function UrlQueryMapIsMatch(path: string, query: Query, mockDir: string, children: seq<Node>, relative: string -> string): (r: MatchReturn)
    ensures path != "/getdata" ==> r == Bool(false)
    ensures "_action" !in query ==> r == Bool(false)
    ensures r.Promise? ==>
      (&& r.settles.Resolves? && r.settles.value.FileRecord?
       && r.settles.value.file in Walk(mockDir, children, relative)
       && "_action" in query
       && (r.settles.value.file.fileName == query["_action"] || r.settles.value.file.fileNameWithoutExt == Some(query["_action"])))
    ensures path == "/getdata" && "_action" in query ==> r == UrlQueryMapIsMatchAsWritten(path, query, mockDir, children, relative)
  {
    if path != "/getdata" then Bool(false)
    else Found(SelectRequestedFile(Walk(mockDir, children, relative), Param(query, "_action"), true))
  }

  // ---------------------------------------------------------------- webpack-dev-server sample

  /** `s.replace(/c/g, d)` for one character `c` and a one-character replacement `d`. */
  function ReplaceChar(s: string, c: char, d: char): (r: string)
    ensures |r| == |s|
    ensures forall i :: 0 <= i < |s| ==> r[i] == (if s[i] == c then d else s[i])
  {
    if s == [] then [] else [if s[0] == c then d else s[0]] + ReplaceChar(s[1..], c, d)
  }

  /** `path.replace(/\//g, "_")`: the file name the sample looks up for a request path. */
  function Mangle(path: string): (m: string)
    ensures |m| == |path| && '/' !in m
    ensures forall i :: 0 <= i < |path| && path[i] != '/' ==> m[i] == path[i]
  {
    ReplaceChar(path, '/', '_')
  }

  /** A mangled path has no `/`, and a path without `_` can be read back from its file name. */
  lemma MangleIsReversible(path: string)
    ensures '/' !in Mangle(path)
    ensures '_' !in path ==> ReplaceChar(Mangle(path), '_', '/') == path
  {
    var m := Mangle(path);
    assert forall i :: 0 <= i < |m| ==> m[i] != '/';
    if '_' !in path {
      var u := ReplaceChar(m, '_', '/');
      forall i | 0 <= i < |path| ensures u[i] == path[i] {
        assert path[i] != '_';
      }
    }
  }

  /** The sample's properties: open, named "local-file-map", no priority. */
  const WebpackFileMapFields := ModuleFields(String("local-file-map"), Boolean(true), Undefined, Function("isMatch"), Function("getResponse"))

  /** `isMatch`: the file named after the request path with every `/` turned into `_`. */
  function WebpackIsMatch(path: string, mockDir: string, children: seq<Node>, relative: string -> string): (r: MatchReturn)
    ensures r.Promise? || r == Bool(false)
    ensures var files := Walk(mockDir, children, relative);
      r.Promise? <==> exists i :: 0 <= i < |files| && (files[i].fileName == Mangle(path) || files[i].fileNameWithoutExt == Some(Mangle(path)))
    ensures r.Promise? ==>
      && r.settles.Resolves? && r.settles.value.FileRecord? && r.settles.value.file in Walk(mockDir, children, relative)
      && (r.settles.value.file.fileName == Mangle(path) || r.settles.value.file.fileNameWithoutExt == Some(Mangle(path)))
  {
    var files, m := Walk(mockDir, children, relative), Mangle(path);
    StrictNameSelect(files, m);
    Found(SelectFile(files, String(m), true))
  }

  /** Looking a string up loosely finds a file exactly when one has that name or that stem. */
  lemma StrictNameSelect(files: seq<FileInfo>, m: string)
    ensures SelectFile(files, String(m), true).Some? <==>
      exists i :: 0 <= i < |files| && (files[i].fileName == m || files[i].fileNameWithoutExt == Some(m))
  {
    if SelectFile(files, String(m), true).Some? {
      var k :| 0 <= k < |files| && (NameIs(files[k], String(m)) || StemIs(files[k], String(m), true));
      assert files[k].fileName == m || files[k].fileNameWithoutExt == Some(m);
    } else {
      forall i | 0 <= i < |files|
        ensures !(files[i].fileName == m || files[i].fileNameWithoutExt == Some(m))
      {
        assert !NameIs(files[i], String(m)) && !StemIs(files[i], String(m), true);
      }
    }
  }

  /**
   * The sample serves the same file as `getLocalFileMapModule` with the mangled path as file name:
   * for a string the loose comparison is the strict one.
   */
  lemma WebpackIsLocalFileMap(path: string, mockDir: string, children: seq<Node>, relative: string -> string)
    ensures WebpackIsMatch(path, mockDir, children, relative) == LocalFileMapIsMatch(mockDir, children, relative, String(Mangle(path)))
  {
    LooseEqualsStrict(Walk(mockDir, children, relative), String(Mangle(path)));
  }
}
