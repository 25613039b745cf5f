# express-middleware-chain-response, modelled in Dafny

express-middleware-chain-response is an Express middleware that builds a response from pluggable
"chain modules". Every module has a `name`, an `isOpen` switch, a `priority` and two callbacks:
`isMatch(reqInfo)` and `getResponse(reqInfo, matchResult, prevResponse, handledModules)`.

For each request the middleware does the following:
- It probes every loaded module's `isMatch`, waiting for all of them to settle (`whenAllSettled`).
- It keeps the modules that matched and sorts them by descending priority; the sort is stable.
- It folds `getResponse` over them (`chainModules`). Each module sees the previous module's response.
- It turns the final response into effects on the host: headers appended, a body sent, `next()` called.

The repository holds two copies of this engine, and the model covers both. `Chain.Engine` names
them:
- `Current`: src/util.js, src/chain-response.js and the options singleton src/chain-options.js.
- `Legacy`: src/ChainResponse.js.

It also models the sample modules shipped with the library: JSONP wrapping and three file maps.

## Layout

| file | module | what it holds |
|---|---|---|
| wrappers.dfy | `Wrappers` | `Option` |
| js.dfy | `Js` | JavaScript values: `typeof` kinds, truthiness, template-literal text, a request's query |
| files.dfy | `Files` | `recuriseFiles` over an abstract directory tree, as a method with the walk it is proved against |
| settle.dfy | `Settle` | `whenAllSettled` |
| module_check.dfy | `ModuleCheck` | the `ChainModule` class and both `checkChainModule` methods, which write defaults in place |
| responses.dfy | `Responses` | response records and header dictionaries |
| chain.dfy | `Chain` | match coercion, selection, the stable priority sort, the `getResponse` fold, the dispatch decision |
| options.dfy | `Options` | the `chainOptions` singleton as a class with `update` |
| chain_response.dfy | `ChainResponse` | the current `chainResponse` and its loader, and the middleware as a class |
| legacy.dfy | `LegacyChainResponse` | the legacy `chainResponse` and `getAllModules` |
| jsonp.dfy | `Jsonp` | `getJsonpModule` and the express sample's JSONP module |
| filemap.dfy | `FileMap` | `getLocalFileMapModule`, the url-query-map test module and the webpack sample's file map |

### How the model is built

Each module object is a `ChainModule`. The checks and the directory loader assign to its fields in
place. Loading methods are specified against pure functions over a `Heap`: a snapshot of every
object's fields before loading.

`require` is a `Registry`, which maps each resolvable path to what it exports. A path missing from
the registry makes `require` throw.

The file system has two parts. `FileSystem` maps a path to a node, and `Node` is an abstract
directory tree.

Per request, two parameters stand for the modules' callbacks:
- a `Prober`: what each module's `isMatch` returns;
- a `Responder`: how each `getResponse` call ends. It can return a value, reject, or throw synchronously.

### Where the model follows the code over the library's documentation

- **A synchronous throw in `getResponse`.** It escapes the inner `.catch`, and the outer `.catch`
  resets the state to `{undefined, []}`. The fold then goes on with the next module, which sees no
  response. Say module A returns "a", B throws and C passes its input on: the chain ends with no
  response and with only C handled, not with "a" (`Chain.ThrowScenario`).
- **A rejected `getResponse`.** When the rejection reason is neither `undefined` nor `null`, the state is kept. The
  current engine does not record the module as handled; the legacy engine does. When the reason
  is `undefined` or `null`, the inner `.catch` throws while reading its `message`, and the outer
  `.catch` resets the state as for a synchronous throw.
- **A synchronous throw of `undefined` or `null`.** The outer `.catch` throws too, and the
  accumulator rejects. The next link skips its `getResponse` and resets the state. When the
  throwing module is the last link, the chain's promise rejects, nothing handles that rejection,
  and the request is left unanswered (`Chain.NullishThrowScenario`).
- **Defaults and names in the current check.** An empty `name` passes. The `isOpen` and
  `priority` defaults are written before `isMatch` and `getResponse` are checked, so a module
  rejected for those still receives them.
- **Legacy modules passed as an array.** The legacy engine neither validates them nor filters them
  on `isOpen`. A `null` or `undefined` entry makes `chainResponse` throw when it logs the names.
- **`null` entries in the current loader.** A `null` entry passes the current loader's entry filter
  (`typeof null === "object"`). The check then rejects it.
- **A throwing `isMatch`.** A synchronous throw in any `isMatch` escapes the middleware
  (`Effects.Raised`) before any probe settles.
- **Sending a response, current engine.** An empty-string content is not sent. When the response
  also has no `continueNext`, the request is left unanswered; an empty mapped file is such a case
  (`FileMap.ServedFile`).

## Model

| member | source | states |
|---|---|---|
| Files.ExtName | src/util.js:38 | the extension is empty or starts at the name's last dot, holds no other dot, and is a suffix of the name |
| Files.JoinSplitDots | src/util.js:41 | splitting a name at its dots and joining the pieces with dots gives the name back |
| Files.WithoutLastSegmentIsPrefix | src/util.js:41 | `split('.').slice(0, -1).join('.')` is exactly the text before the last dot |
| Files.Describe | src/util.js:34-44 | a file record has the joined path, the directory and the name; it has a stem and a relative path exactly when the extension is non-empty, and stem + extension is the name |
| Files.RecurseFiles | src/util.js:21-48 | the shared list ends up as the incoming list followed by the walk of the tree: all subdirectory files, then the directory's own files |
| Files.PushOwnFiles | src/util.js:33-46 | the directory's own plain files are appended in listing order |
| Files.WalkStaysBelow | src/util.js:32 | own files have the directory as their path; subdirectory files lie strictly below it |
| Files.OwnFilesComeLast | src/util.js:32-33 | once a file of the directory itself appears in the walk, no subdirectory file follows it |
| Settle.WhenAllSettled | src/util.js:55-85 | one result per input, in input order; a result is fulfilled iff its input is a promise that resolves; tagged inputs keep their data; any other input is rejected with `invalid_promise` and that input as its data |
| ModuleCheck.Called | src/util.js:100-102 | a factory is replaced by what it returns; anything else is used as is |
| ModuleCheck.WithDefaults | src/util.js:113-118 | a non-boolean `isOpen` becomes true and a non-number `priority` becomes 100; well-typed values and the other properties are untouched |
| ModuleCheck.CheckFields | src/util.js:104-126 | valid iff `name` is a string (the empty string included) and `isMatch` and `getResponse` are functions; defaults are written iff the name check passed |
| ModuleCheck.CheckChainModule | src/util.js:95-131 | returns the called candidate; a non-object is invalid; an object's new fields and verdict are those of `CheckFields` on its old fields |
| ModuleCheck.LegacyCheckFields | src/ChainResponse.js:113-140 | valid iff `isMatch` and `getResponse` are functions; a non-string name becomes the module path; the other defaults are those of the current check |
| ModuleCheck.LegacyCheckChainModule | src/ChainResponse.js:109-141 | replaces a factory by its result; a non-object is rejected; an object's new fields and verdict are those of `LegacyCheckFields` |
| ModuleCheck.CheckIsIdempotent | src/util.js:113-118 | checking an already checked module changes nothing and gives the same verdict |
| ModuleCheck.LegacyCheckKeepsFirstName | src/ChainResponse.js:124-126 | a second legacy check under another path keeps the name the first one gave |
| ModuleCheck.NamelessModule | src/util.js:109-112 | a module whose name is not a string is rejected unchanged by the current check and accepted, named after its path, by the legacy one |
| Responses.Assign | src/modules/jsonap.js:37 | after `headers[name] = value` the name reads the value, every other name reads as before, a new name is added last, and an existing one keeps the length (its position is `Responses.AssignKeepsPlace`) |
| Responses.AssignKeepsPlace | src/modules/jsonap.js:37 | assigning an existing header rewrites its first entry in place; every other entry keeps its value and position |
| Responses.AssignKeepsNamesDistinct | src/modules/jsonap.js:37 | assigning a header keeps header names distinct |
| Chain.Coerce | src/chain-response.js:89-93 | the current engine maps `true` to a promise resolved with `true` and `false` to one rejected with `false`; the legacy engine uses `undefined` for both; promises pass through; any other value is an invalid probe carrying the module |
| Chain.Probes | src/chain-response.js:89-94 | one probe per module, in module order, each the coerced result of its `isMatch` |
| Chain.Select | src/chain-response.js:97-103 | the candidates are exactly the fulfilled probes, each with its result, its module and that module's numeric priority or 0 |
| Chain.SelectAppend | src/chain-response.js:97-103 | selecting from two lists of settled probes in a row gives the candidates of each, in turn: selection keeps the probes' order and multiplicity |
| Chain.PriorityOf | src/chain-response.js:102 | the sort key is the module's own priority when it is a number, 0 otherwise |
| Chain.Fulfillment | src/chain-response.js:90-93 | a returned boolean fulfils the probe iff it is `true`; a promise fulfils it iff it resolves; any other value or a throw never does |
| Chain.MatchesInOrder | src/chain-response.js:89-103 | the reference for the match phase: at most one candidate per module, in module order |
| Chain.MatchesAppend | src/chain-response.js:89-103 | the matches of two module lists in a row are those of each, in turn |
| Chain.SelectInOrder | src/util.js:55-85 | selecting from probes settled in module order gives exactly the module-order matches |
| Chain.ProbesSettleAs | src/chain-response.js:89-96 | when no `isMatch` throws, `whenAllSettled` reports one entry per module, in module order, fulfilled iff that module's probe is, with its value |
| Chain.NothingFulfilledSelectsNothing | src/chain-response.js:98 | with no fulfilled probe, no module is chained |
| Chain.Insert | src/chain-response.js:104 | inserting adds exactly the new candidate to the multiset |
| Chain.InsertKeepsTies | src/chain-response.js:104 | an inserted candidate goes ahead of every candidate of its own priority, and no other candidate of any priority moves |
| Chain.InsertKeepsDescending | src/chain-response.js:104 | inserting into a list sorted by descending priority keeps it sorted |
| Chain.SortByPriority | src/chain-response.js:104 | the result is sorted by descending priority and is a permutation of the input, and candidates of equal priority keep their input order (stability) |
| Chain.Matched | src/chain-response.js:95-104 | the chained candidates are in descending priority order and are a permutation of the module-order matches, and each priority's candidates keep module order |
| Chain.WithPriorityAppend | src/chain-response.js:104 | the candidates of one priority in two lists in a row are those of each, in turn |
| Chain.TieAt | src/chain-response.js:104 | a candidate of priority p sits between the ties before it and those after it |
| Chain.TiesGrow | src/chain-response.js:104 | a longer prefix of a list holds at least as many candidates of a priority |
| Chain.TieSource | src/chain-response.js:104 | the a-th candidate of a priority is preceded by exactly a candidates of that priority |
| Chain.TiesInOrder | src/chain-response.js:104 | two tied candidates appear in the same relative order in any list with the same ties |
| Chain.MatchAt | src/chain-response.js:89-103 | a matching module's candidate follows the candidates of the modules before it |
| Chain.MatchedKeepsTieOrder | src/chain-response.js:95-104 | two matching modules of equal priority are chained in module order |
| Chain.TiesKeepDiscoveryOrder | src/chain-response.js:104 | the sort puts candidates of priorities 5, 10, 5 in the order: the 10, then the first 5, then the second 5 |
| Chain.Step | src/util.js:141-164 | a returned value becomes the response and the module is appended; a rejection whose reason is not `null` or `undefined` keeps the state in the current engine, and keeps the response and appends the module in the legacy one (src/ChainResponse.js:180-203); a nullish rejection reason or a non-nullish throw resets the state; a nullish throw leaves the accumulator rejected, and the next link resets it |
| Chain.Fold | src/util.js:141-164 | an empty list leaves the state as it is; each link records at most one module |
| Chain.ReturnsChainEveryLink | src/util.js:141-149 | when every `getResponse` returns, both engines record every link in chain order and end with the value the last link returned, given the state the earlier links left; the two engines agree |
| Chain.ReturnsIgnoreEngine | src/ChainResponse.js:180-188 | when every `getResponse` returns, the legacy fold equals the current one |
| Chain.ChainModules | src/util.js:139-165 | an empty module list yields `{undefined, []}` |
| Chain.FoldAppend | src/util.js:141-164 | folding over two lists in a row is folding over their concatenation |
| Chain.ThrowDiscardsProgress | src/util.js:151-163 | a reset at link k, from a throw, a nullish rejection reason or a rejected accumulator, discards every earlier link: the result is that of chaining only the links after k |
| Chain.NullishThrowSkipsNextLink | src/util.js:157-163 | a nullish throw at link k also discards link k+1; at the last link it leaves the chain rejected |
| Chain.HandledFollowsChainOrder | src/util.js:144-156 | the handled list is a subsequence of the chained modules, in chain order |
| Chain.CurrentRejectionsKeepState | src/util.js:150-156 | under the current engine, modules rejecting with a reason that is not `null` or `undefined` leave the state exactly as they found it |
| Chain.LegacyHandlesEveryLink | src/ChainResponse.js:183-195 | when every link returns or rejects with a reason that is not `null` or `undefined`, the legacy fold records every chained module, in order |
| Chain.LegacyRejectionsKeepResponse | src/ChainResponse.js:189-195 | under the legacy engine, modules rejecting with a reason that is not `null` or `undefined` keep the response and are recorded as handled |
| Chain.RejectionScenario | src/util.js:144-156 | A responds, B rejects with a reason that is not `null` or `undefined`, C passes on: both engines end with A's response; the current engine records A and C, the legacy one A, B and C |
| Chain.ThrowScenario | src/util.js:151-163 | A responds, B throws a non-nullish value or rejects with a nullish reason, C passes on: both engines end with no response and only C recorded |
| Chain.NullishThrowScenario | src/util.js:157-163 | A responds and B throws `undefined`: with C after B, the chain ends with no response and nothing recorded; with B last, the chain's promise rejects |
| Chain.Decide | src/chain-response.js:108-126 | no response only calls `next()`; current engine: all headers appended, content sent iff truthy, `next()` iff `continueNext` is truthy; legacy engine: only `next()` unless the content is a string, else headers and content and no `next()` |
| Chain.LegacyAnswersOrDefers | src/ChainResponse.js:252-270 | the legacy middleware does exactly one of sending a body and calling `next()` |
| Chain.CurrentMaySendAndDefer | src/chain-response.js:121-127 | the current middleware can both send and call `next()`, or do neither |
| Chain.Dispatch | src/chain-response.js:89-128 | the middleware throws iff some `isMatch` throws; a chain whose promise rejects leaves the request unanswered |
| Chain.NoMatchDefers | src/chain-response.js:95-113 | when no module matches, both engines only call `next()` |
| Options.Apply | src/chain-options.js:16-29 | a missing argument changes nothing; each setting changes iff its option has the right type, and then to that value |
| Options.ApplyIsIdempotent | src/chain-options.js:16-29 | updating twice with the same options is updating once |
| Options.IllTypedOptionsChangeNothing | src/chain-options.js:20-28 | options of the wrong types leave every setting as it was |
| Options.ChainOptions.constructor | src/chain-options.js:1-4 | debug off, switch path "/@alanlib/express-middleware-chain-response", switch on |
| Options.ChainOptions.Update | src/chain-options.js:16-29 | the singleton's new settings are `Apply` of its old ones |
| ChainResponse.ModulePath | src/chain-response.js:19 | a module path starts with "./" and is never empty |
| ChainResponse.JsModulePaths | src/chain-response.js:17-22 | exactly the module paths of the files ending in ".js" |
| ChainResponse.JsModulePathsAppend | src/chain-response.js:17-22 | the paths of two file lists in a row are those of each, in turn, one per `.js` file: file order is kept |
| ChainResponse.Required | src/chain-response.js:24 | one export per path, each what the registry holds for it |
| ChainResponse.NameFix | src/chain-response.js:25-27 | a module whose name is not a string or is empty gets the path as its name; a module with a non-empty string name is unchanged; no other field changes |
| ChainResponse.NameFixKeepsFirstName | src/chain-response.js:25-27 | a module named after one path keeps that name when required again under another |
| ChainResponse.RenamedAppend | src/chain-response.js:23-29 | requiring two path lists in a row renames as requiring their concatenation |
| ChainResponse.NameAfter | src/chain-response.js:25-27 | the object's new fields are `NameFix` of its old ones |
| ChainResponse.RequireAll | src/chain-response.js:23-29 | throws iff some path does not resolve or exports `null` or `undefined`; otherwise returns the exports, and each module is named after the first path that yields it |
| ChainResponse.GetAllModules | src/chain-response.js:13-30 | the same, for the `.js` files of the walk of the directory |
| ChainResponse.KeptEntries | src/chain-response.js:46 | the kept entries are exactly the non-empty existing paths, `null`, objects and functions |
| ChainResponse.KeptEntriesAppend | src/chain-response.js:46 | the kept entries of two lists in a row are those of each, in turn, and one entry is kept iff it passes the filter: order and repeats are kept |
| ChainResponse.Expansion | src/chain-response.js:47-59 | a file path yields its export; an object or function yields itself |
| ChainResponse.Expand | src/chain-response.js:47-59 | throws iff the entry's expansion throws, else returns it; directory modules are renamed |
| ChainResponse.GatherNext | src/chain-response.js:60 | one more entry adds its expansion at the end and its directory paths after the earlier ones |
| ChainResponse.GatherModules | src/chain-response.js:46-60 | the flattened expansion of the kept entries, in entry order, unless one of them throws |
| ChainResponse.KeepsMeans | src/chain-response.js:61-62 | a module is kept iff its name is a string, `isMatch` and `getResponse` are functions and `isOpen` is not `false` |
| ChainResponse.Accepted | src/chain-response.js:61-63 | exactly the checked objects that are valid and open survive |
| ChainResponse.CheckTargetsAppend | src/chain-response.js:61 | the objects two export lists in a row yield are those each yields |
| ChainResponse.AcceptedAppend | src/chain-response.js:61-63 | the modules two export lists in a row keep are those each keeps, in turn, and one export is kept iff it yields a valid, open module: order is kept, and an object listed twice is kept twice |
| ChainResponse.CheckEach | src/chain-response.js:61 | one verdict per entry, computed from the object's fields before any check; every object ends with its defaults written |
| ChainResponse.KeepOpen | src/chain-response.js:62-63 | keeps the valid, open modules, in order |
| ChainResponse.CheckAll | src/chain-response.js:61-63 | the kept modules are `Accepted` of the fields before the checks, even for an object listed twice |
| ChainResponse.LoadModules | src/chain-response.js:46-63 | loading throws iff an entry's expansion throws; otherwise it yields the modules that pass the checks after directory modules were named, and every object it touches holds `LoadedFields` of its old fields: named after its first directory path, then given the check's defaults |
| ChainResponse.LoadedModulesAreReady | src/chain-response.js:46-63 | every module a load keeps has a string name, `isOpen` true, its own numeric priority or 100, and callable `isMatch` and `getResponse` |
| ChainResponse.SwitchStatus | src/chain-response.js:79 | the status text is "current switch is true" or "current switch is false" |
| ChainResponse.Middleware.Handle | src/chain-response.js:66-128 | the switch path flips the switch and reports it without consulting any module; while switched off, other requests only call `next()`; otherwise the request is dispatched by the current engine |
| ChainResponse.ToggleTwice | src/chain-response.js:76-80 | two switch-path requests restore the options and report the flipped and then the original state |
| ChainResponse.MakeChainResponse | src/chain-response.js:38-66 | a non-array argument yields `undefined` and changes nothing; otherwise the options are updated, and the middleware holds exactly the loaded modules unless loading throws; the loaded objects hold `LoadedFields` of their old fields |
| LegacyChainResponse.FilteredPaths | src/ChainResponse.js:151-166 | exactly the module paths of the files the filter selects (by default those ending in ".js") |
| LegacyChainResponse.FilteredPathsAppend | src/ChainResponse.js:151-166 | the paths of two file lists in a row are those of each, in turn, one per selected file: file order is kept |
| LegacyChainResponse.LegacyAccepted | src/ChainResponse.js:167-169 | exactly the required objects that pass the legacy check survive |
| LegacyChainResponse.LegacyAcceptedAppend | src/ChainResponse.js:167-169 | the modules two path lists in a row keep are those each keeps, in turn, and one path is kept iff its module passes the legacy check: order is kept, and an object two paths yield is kept twice |
| LegacyChainResponse.LegacyLoadedModulesAreReady | src/ChainResponse.js:167-169 | every module the legacy loader keeps has a string name, a boolean `isOpen` (its own when it had one, so a closed module stays), its own numeric priority or 100, and callable `isMatch` and `getResponse` |
| LegacyChainResponse.LegacyCheckAll | src/ChainResponse.js:168-169 | the surviving modules are `LegacyAccepted` of the fields before the checks; each object ends with the legacy defaults |
| LegacyChainResponse.RequireEach | src/ChainResponse.js:167 | requiring throws iff some path does not resolve |
| LegacyChainResponse.LegacyGetAllModules | src/ChainResponse.js:148-170 | throws iff a selected file does not resolve; otherwise yields the modules that pass the legacy check |
| LegacyChainResponse.LegacyLog.constructor | src/ChainResponse.js:2 | debug logging starts off |
| LegacyChainResponse.MakeLegacyChainResponse | src/ChainResponse.js:213-218 | `null` options or a nullish first argument throw; an array is kept unchecked unless it holds a nullish entry; a directory is loaded and checked, and every object it touches holds the legacy check's fields; debug mode is `!!debug` |
| LegacyChainResponse.LoadedModulesAreProbeable | src/ChainResponse.js:168 | every module loaded from a directory has a callable `isMatch` |
| LegacyChainResponse.LegacyHandle | src/ChainResponse.js:220-273 | an entry without a callable `isMatch` makes the middleware throw; otherwise it throws iff some `isMatch` throws |
| LegacyChainResponse.LegacyAnswersEveryRequest | src/ChainResponse.js:220-273 | a legacy middleware that does not throw either sends a body or calls `next()`, never both, except when the chain's promise rejects, which leaves the request unanswered |
| Jsonp.JsonpModuleFields | src/modules/jsonap.js:6-11 | the module is named "jsonp", closed, with priority 5 when none is passed and the given one otherwise |
| Jsonp.JsonpModuleIsClosed | src/modules/jsonap.js:9 | the loader drops the module unless the caller opens it |
| Jsonp.FirstCallbackParam | src/modules/jsonap.js:19 | the first callback parameter, in list order, whose query value is truthy; none iff no parameter has one |
| Jsonp.JsonpIsMatch | src/modules/jsonap.js:18-24 | either `false` or a promise that resolves |
| Jsonp.JsonpMatchesCallback | src/modules/jsonap.js:19-23 | the module matches iff some callback parameter is set to a non-empty value, and resolves with the first such value |
| Jsonp.JsonpWrap | src/modules/jsonap.js:33-41 | a missing response passes through; `undefined` headers throw; otherwise Content-Type becomes "application/x-javascript; charset=utf-8", every other header is kept, and the content becomes `callback(content)` |
| Jsonp.UnwrapWrapCall | src/modules/jsonap.js:38 | the wrapped text is a call to the callback whose argument is exactly the old content |
| Jsonp.JsonpWrapIsReversible | src/modules/jsonap.js:37-40 | the wrapped response's content unwraps to the previous content |
| Jsonp.SampleJsonpIsDropped | samples/express-sample/modules/jsonap.js:4-7 | the sample is closed, so the current loader excludes it |
| Jsonp.SampleJsonpIsLoadedByLegacy | samples/express-sample/modules/jsonap.js:4-7 | the legacy loader, which the express sample app mounts, accepts the sample with its own fields, closed as it is |
| Jsonp.SampleIsMatch | samples/express-sample/modules/jsonap.js:14-16 | matches iff `query._callback` is a non-empty string |
| Jsonp.SampleGetResponse | samples/express-sample/modules/jsonap.js:25-33 | a missing response passes through; `undefined` headers throw; otherwise the content becomes `query._callback(content)` and Content-Type the JavaScript type, whatever the match result |
| Jsonp.SampleAgreesWithFactory | samples/express-sample/modules/jsonap.js:25-33 | the sample matches exactly when `getJsonpModule(["_callback"])` does, and wraps with the same callback, read from the query rather than from the match result |
| FileMap.First | src/modules/local-file-map.js:32 | the index of the first file satisfying the test, or none when no file does |
| FileMap.SelectFile | src/modules/local-file-map.js:32 | nothing is picked iff no file matches by name or by stem; when some file has exactly the name, the first such file is picked; otherwise the first file with that stem |
| FileMap.ExactNameWins | src/modules/local-file-map.js:32 | the first file with exactly the name is picked, even when an earlier file has that name as its stem |
| FileMap.MissingNameSelectsExtensionless | src/modules/local-file-map.js:32 | an `undefined` name picks a file iff some file has no extension, and then picks the first of those |
| FileMap.Found | src/modules/local-file-map.js:33 | a picked file becomes a promise resolved with it; no file gives `false` |
| FileMap.ContentTypeFor | src/modules/local-file-map.js:49 | the table's non-empty entry for the extension, else "text/plain"; never empty |
| FileMap.DefaultContentTypes | src/modules/local-file-map.js:5-9 | .json, .js and .html map to their types; every other extension, the empty one included, is plain text |
| FileMap.FileResponse | src/modules/local-file-map.js:43-52 | a readable file record is answered with its content and only its Content-Type header, without `continueNext`; anything else throws |
| FileMap.ServedFile | src/modules/local-file-map.js:43-52 | a readable file is answered with only its Content-Type header; the current engine sends a non-empty content, sends nothing for an empty one, and never calls `next()` |
| FileMap.UnreadableFileThrows | src/modules/local-file-map.js:45 | a match result that is not a readable file throws, and the chain's state resets |
| FileMap.ContentTypeRegistry.constructor | src/modules/local-file-map.js:5-9 | the shared table starts with the three declared types |
| FileMap.ContentTypeRegistry.Merge | src/modules/local-file-map.js:18 | the table becomes the old one overridden by every given entry |
| FileMap.GetLocalFileMapModule | src/modules/local-file-map.js:17-54 | the shared table is merged with the given one, if any, and a fresh open module named "local-file-map" is returned |
| FileMap.LocalFileMapIsKept | src/modules/local-file-map.js:20-22 | the module passes the check, stays open and gets priority 100 |
| FileMap.LocalFileMapIsMatch | src/modules/local-file-map.js:29-34 | resolves iff some file of the walk matches the requested name by name or by stem, and then with the file `SelectFile` picks: the first exact name, else the first stem |
| FileMap.UrlQueryMapExport | test/express-sample/modules/url-query-map.js:62 | calling the factory yields the one module object, whichever call it is |
| FileMap.GetdataWithoutAction | test/express-sample/modules/url-query-map.js:37-41 | as written, `/getdata` without `_action` matches the mock directory's extension-less file |
| FileMap.SelectRequestedFile | test/express-sample/modules/url-query-map.js:39 | a picked file bears the requested string as its name or its stem; a missing name picks nothing |
| FileMap.UrlQueryMapIsMatchAsWritten | test/express-sample/modules/url-query-map.js:34-41 | `false` off `/getdata`; otherwise either `false` or a promise resolving with the file the loose lookup of `_action` picks |
| FileMap.UrlQueryMapIsMatch | test/express-sample/modules/url-query-map.js:34-41 | `false` off `/getdata` and without `_action`; otherwise a file named or stemmed `_action`, as the code as written picks |
| FileMap.ReplaceChar | samples/webpack-dev-sever-sample/chain-response/modules/local-file-map.js:22 | the global one-character replace `path.replace(/\//g, "_")` uses: same length, every "/" becomes "_" and every other character stays |
| FileMap.Mangle | samples/webpack-dev-sever-sample/chain-response/modules/local-file-map.js:22 | the mangled path has the path's length, holds no "/", and keeps every other character in place |
| FileMap.MangleIsReversible | samples/webpack-dev-sever-sample/chain-response/modules/local-file-map.js:22 | a mangled path has no "/", and a path without "_" can be read back from its file name |
| FileMap.LooseEqualsStrict | samples/webpack-dev-sever-sample/chain-response/modules/local-file-map.js:22 | for a string or `undefined` name, the loose `==` stem comparison picks the same file as `===` |
| FileMap.WebpackIsMatch | samples/webpack-dev-sever-sample/chain-response/modules/local-file-map.js:20-24 | resolves iff some file of the walk has the mangled path as its name or stem, and then with such a file |
| FileMap.StrictNameSelect | samples/webpack-dev-sever-sample/chain-response/modules/local-file-map.js:22 | for a string, the loose lookup finds a file iff some file has it as its name or its stem |
| FileMap.WebpackIsLocalFileMap | samples/webpack-dev-sever-sample/chain-response/modules/local-file-map.js:20-24 | the sample matches as `getLocalFileMapModule` does with the mangled path as the file name |

The `getResponse` of all three file maps is `FileMap.FileResponse` over the module's table. The
url-query-map and webpack modules declare the same three types as `FileMap.DefaultTypes`. The
url-query-map module has no default for its match result, so an `undefined` match result throws
there while destructuring instead of in `readFileSync`; the outcome is the same.

## Left out

- Promise scheduling. Probes and `getResponse` calls are outcomes given per request (`Prober`, `Responder`), and every probe is assumed to settle.
- Express `req`, `res` and `next`. They become the `Effects` record: headers appended in order, the body sent, whether `next()` is called.
- File I/O and `require`. Both are lookups in `FileSystem`, `Registry` and `read`. The registry does not model a module's own side effects on loading, and `existsSync`/`statSync` failures other than a missing path are not modelled.
- `path.join`, `path.relative` and `path.sep`. The model joins with "/" and takes `path.relative(__dirname, ·)` as a parameter. It does no normalisation and has no Windows separator.
- The RegExp filter of the legacy `getAllModules` is not modelled. It needs regular-expression matching and passes an object to `RegExp.test`.
- Logging (`log`, `warn`, `error`, `getLogPrefix`) is not modelled. It uses `Date` and locale formatting. Only the legacy `debugMode` flag is kept, because `chainResponse` sets it.
- Numbers are integers. Fractional priorities, `NaN` and `Infinity` are not modelled.
- Responses are values. `getResponse` of the JSONP modules mutates `prevResponse` in place. An earlier module that kept a reference to that object would see the change; the model does not capture this aliasing.
- Query values are strings. Array values from repeated parameters are not modelled, and neither are properties inherited from `Object.prototype` when a name is looked up in a query or a content-type table.
- Header dictionaries are ordered lists in insertion order. JavaScript lists integer-like keys first; that order is not modelled.
- Jsonp.JsonpWrap: when `prevResponse` is falsy, the value is passed on as `undefined`. Other falsy values, and truthy non-object headers (where the assignment is silently ignored), are not modelled.
- FileMap.FileResponse: a match result that is an object other than a file record is treated as throwing. Its own `fullPath` and `extName` are not modelled.
- FileMap.ContentTypeRegistry.Merge: overrides are a string-to-string map. A truthy non-object `fileExtContentTypeMaps`, such as a string whose indices become keys, is not modelled.
- Directory nodes that are neither files nor directories (`Special`) are skipped by the walk. A directory that cannot be read is not modelled.
- ModuleCheck.Called: a factory always returns. In the source a factory that throws makes `checkChainModule` throw (src/util.js:100-102, src/ChainResponse.js:113-115), and with it `chainResponse`; that error path is not modelled, so the loaders never throw for it.
- The contents of module objects after a load that throws are left unspecified. Every loading method states the new fields only on success.
- A rejected chain promise is unhandled. What the host process does with an unhandled rejection (a warning, or exiting under newer Node.js defaults) is not modelled; the model records only that the request gets no answer.
- `src/modules/module-sample.js` is not part of this model. It is documentation with unreachable code; its behaviour is that of the closed JSONP sample.
- The host wiring (`app.js`, `vue.config.js`) and the browser script under `mock-files` are not part of this model.

## Findings

| source | as written | input that shows it | evidently intended | confidence | as-written member | corrected member |
|---|---|---|---|---|---|---|
| test/express-sample/modules/url-query-map.js:37-39 | `files.filter(f => f.fileNameWithoutExt == action)[0]`, with `action = query._action` | a request to `/getdata` with no `_action` parameter, when the mock directory holds a file without extension (such as `README`): every such file has `fileNameWithoutExt` undefined, `undefined == undefined` holds, and that file is served | a request that names no file matches nothing and falls through to `next()` | medium, not executed | FileMap.GetdataWithoutAction | FileMap.UrlQueryMapIsMatch |
