/**
 * The recursive directory listing of src/util.js (`recuriseFiles`), over an abstract directory
 * tree. `readdirSync` order is the order of a directory's `children`; `statSync` is the kind of
 * each node. Paths are joined with "/".
 */
module Files {
  import opened Wrappers

  /** A directory entry. `Special` is a node that is neither a file nor a directory. */
  datatype Node =
    | File(name: string)
    | Dir(name: string, children: seq<Node>)
    | Special(name: string)

  /** The record the walk builds for each file. The last two fields are set only when the file has an extension. */
  datatype FileInfo = FileInfo(
    fullPath: string,
    filePath: string,
    fileName: string,
    extName: string,
    fileNameWithoutExt: Option<string>,
    relativePath: Option<string>)

  /** `path.join(dir, name)` for a normalised directory and a plain entry name. */
  function Join(dir: string, name: string): string
  {
    dir + "/" + name
  }

  /** Index of the last '.' in `s`, or -1 when there is none. */
  function LastDot(s: string): (i: int)
    ensures -1 <= i < |s|
    ensures 0 <= i ==> s[i] == '.'
    ensures forall j :: i < j < |s| ==> s[j] != '.'
    decreases |s|
  {
    if s == [] then -1
    else if s[|s| - 1] == '.' then |s| - 1
    else LastDot(s[..|s| - 1])
  }

  /**
   * `path.extname(name)` for an entry name: from the last '.' to the end, unless that '.' is the
   * first character (a dot file) or there is no '.' at all.
   */
  function ExtName(name: string): (ext: string)
    ensures |ext| <= |name|
    ensures ext != "" ==> ext[0] == '.' && '.' !in ext[1..]
    ensures ext != "" ==> name == name[..|name| - |ext|] + ext
  {
    var d := LastDot(name);
    if d > 0 then name[d..] else ""
  }

  /** `s.split('.')`: the dot-free pieces between the dots, in order. */
  function SplitDots(s: string): (parts: seq<string>)
    ensures |parts| >= 1
    ensures forall i :: 0 <= i < |parts| ==> '.' !in parts[i]
    decreases |s|
  {
    var d := LastDot(s);
    if d < 0 then [s] else SplitDots(s[..d]) + [s[d + 1..]]
  }

  /** `parts.join('.')`. */
  function JoinDots(parts: seq<string>): string
  {
    if parts == [] then ""
    else if |parts| == 1 then parts[0]
    else JoinDots(parts[..|parts| - 1]) + "." + parts[|parts| - 1]
  }

  /** Splitting at the dots and joining with dots gives back the original name. */
  lemma {:induction false} JoinSplitDots(s: string)
    ensures JoinDots(SplitDots(s)) == s
    decreases |s|
  {
    var d := LastDot(s);
    if d >= 0 {
      JoinSplitDots(s[..d]);
      var ps := SplitDots(s[..d]);
      assert SplitDots(s) == ps + [s[d + 1..]];
      assert (ps + [s[d + 1..]])[..|ps|] == ps;
      assert s == s[..d] + "." + s[d + 1..];
    }
  }

  /** `name.split('.').slice(0, -1).join('.')`. */
  function WithoutLastSegment(name: string): string
  {
    var parts := SplitDots(name);
    JoinDots(parts[..|parts| - 1])
  }

  /** Dropping the last '.'-segment leaves exactly the text before the last '.'. */
  lemma {:induction false} WithoutLastSegmentIsPrefix(name: string)
    requires '.' in name
    ensures 0 <= LastDot(name)
    ensures WithoutLastSegment(name) == name[..LastDot(name)]
  {
    var d := LastDot(name);
    var ps := SplitDots(name[..d]);
    assert SplitDots(name) == ps + [name[d + 1..]];
    assert (ps + [name[d + 1..]])[..|ps|] == ps;
    JoinSplitDots(name[..d]);
  }

  /** The record for the file `name` found in `dir`; `relative` stands for `path.relative(__dirname, ·)`. */
  function Describe(dir: string, name: string, relative: string -> string): (f: FileInfo)
    ensures f.fullPath == Join(dir, name) && f.filePath == dir && f.fileName == name
    ensures f.extName == ExtName(name)
    ensures f.extName != "" ==> f.fileNameWithoutExt == Some(name[..|name| - |f.extName|])
    ensures f.extName != "" ==> f.fileNameWithoutExt.value + f.extName == name
    ensures f.extName != "" ==> f.relativePath == Some(relative(dir))
    ensures f.extName == "" ==> f.fileNameWithoutExt.None? && f.relativePath.None?
  {
    var ext := ExtName(name);
    if ext != "" then
      WithoutLastSegmentIsPrefix(name);
      FileInfo(Join(dir, name), dir, name, ext, Some(WithoutLastSegment(name)), Some(relative(dir)))
    else
      FileInfo(Join(dir, name), dir, name, ext, None, None)
  }

  /** All files of the tree below `dir`: every subdirectory's files first, then the directory's own files. */
  function Walk(dir: string, children: seq<Node>, relative: string -> string): seq<FileInfo>
    decreases children, 1
  {
    SubdirFiles(dir, children, relative) + OwnFiles(dir, children, relative)
  }

  /** The files below the subdirectories among `children`, in `children` order. */
  function SubdirFiles(dir: string, children: seq<Node>, relative: string -> string): seq<FileInfo>
    decreases children, 0
  {
    if children == [] then []
    else
      var last := children[|children| - 1];
      SubdirFiles(dir, children[..|children| - 1], relative)
        + (if last.Dir? then Walk(Join(dir, last.name), last.children, relative) else [])
  }

  /** The records of the plain files among `children`, in `children` order. */
  function OwnFiles(dir: string, children: seq<Node>, relative: string -> string): seq<FileInfo>
  {
    if children == [] then []
    else
      var last := children[|children| - 1];
      OwnFiles(dir, children[..|children| - 1], relative)
        + (if last.File? then [Describe(dir, last.name, relative)] else [])
  }

  /**
   * `recuriseFiles(dir, files)`: walks the subdirectories first, pushing into the shared list,
   * then pushes the records of the directory's own files, and returns the list.
   */
  method RecurseFiles(dir: string, children: seq<Node>, files: seq<FileInfo>, relative: string -> string)
    returns (result: seq<FileInfo>)
    ensures result == files + Walk(dir, children, relative)
    decreases children
  {
    result := files;
    var i := 0;
    while i < |children|
      invariant 0 <= i <= |children|
      invariant result == files + SubdirFiles(dir, children[..i], relative)
    {
      var child := children[i];
      SubdirFilesGrow(dir, children, i, files, relative);
      if child.Dir? {
        result := RecurseFiles(Join(dir, child.name), child.children, result, relative);
      }
      i := i + 1;
    }
    assert children[..|children|] == children;
    result := PushOwnFiles(dir, children, result, relative);
  }

  /** One more child adds at most the walk below it to the files of a directory's prefix. */
  lemma SubdirFilesGrow(dir: string, children: seq<Node>, i: nat, files: seq<FileInfo>, relative: string -> string)
    requires i < |children|
    ensures files + SubdirFiles(dir, children[..i + 1], relative)
      == files + SubdirFiles(dir, children[..i], relative)
         + (if children[i].Dir? then Walk(Join(dir, children[i].name), children[i].children, relative) else [])
  {
    assert children[..i + 1][..i] == children[..i];
  }

  /** The second half of `recuriseFiles`: pushes the record of each plain file among `children`. */
  method PushOwnFiles(dir: string, children: seq<Node>, files: seq<FileInfo>, relative: string -> string)
    returns (result: seq<FileInfo>)
    ensures result == files + OwnFiles(dir, children, relative)
  {
    result := files;
    var j := 0;
    while j < |children|
      invariant 0 <= j <= |children|
      invariant result == files + OwnFiles(dir, children[..j], relative)
    {
      var child := children[j];
      OwnFilesGrow(dir, children, j, files, relative);
      if child.File? {
        result := result + [Describe(dir, child.name, relative)];
      }
      j := j + 1;
    }
    assert children[..|children|] == children;
  }

  /** One more child adds at most its own record to the files of a directory's prefix. */
  lemma OwnFilesGrow(dir: string, children: seq<Node>, j: nat, files: seq<FileInfo>, relative: string -> string)
    requires j < |children|
    ensures files + OwnFiles(dir, children[..j + 1], relative)
      == files + OwnFiles(dir, children[..j], relative)
         + (if children[j].File? then [Describe(dir, children[j].name, relative)] else [])
  {
    assert children[..j + 1][..j] == children[..j];
  }

  /** Every record of a walk below `dir` has `dir`, or a path below it, as its `filePath`. */
  lemma {:induction false} WalkStaysBelow(dir: string, children: seq<Node>, relative: string -> string)
    ensures forall f :: f in OwnFiles(dir, children, relative) ==> f.filePath == dir
    ensures forall f :: f in SubdirFiles(dir, children, relative) ==> dir + "/" <= f.filePath
    decreases children
  {
    if children != [] {
      var init := children[..|children| - 1];
      var last := children[|children| - 1];
      WalkStaysBelow(dir, init, relative);
      if last.Dir? {
        var sub := Join(dir, last.name);
        WalkStaysBelow(sub, last.children, relative);
        forall f | f in Walk(sub, last.children, relative)
          ensures dir + "/" <= f.filePath
        {
          assert dir + "/" <= sub;
          if f in SubdirFiles(sub, last.children, relative) {
            assert sub + "/" <= f.filePath;
            assert sub <= sub + "/";
          }
        }
      }
    }
  }

  /** Once the walk reaches a file of `dir` itself, nothing from a subdirectory follows it. */
  lemma OwnFilesComeLast(dir: string, children: seq<Node>, relative: string -> string)
    ensures var w := Walk(dir, children, relative);
      forall i, j :: 0 <= i < j < |w| && w[i].filePath == dir ==> w[j].filePath == dir
  {
    var s := SubdirFiles(dir, children, relative);
    var o := OwnFiles(dir, children, relative);
    var w := Walk(dir, children, relative);
    WalkStaysBelow(dir, children, relative);
    forall k | 0 <= k < |s|
      ensures s[k].filePath != dir
    {
      assert s[k] in s;
      assert |dir + "/"| > |dir|;
    }
    forall i, j | 0 <= i < j < |w| && w[i].filePath == dir
      ensures w[j].filePath == dir
    {
      assert w[j] == o[j - |s|] && w[j] in o;
    }
  }
}
