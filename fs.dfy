/**
 * The filesystem the crawlers read, as a value: a tree of named
 * directories and files. Listings keep the order in which the operating
 * system returns them; a file carries what `readlines()` returns, what
 * `json.load` makes of it (`None` when it is not valid JSON) and its
 * creation date and modification time. Paths are component sequences
 * from the root of the tree.
 */
module FileSystem {
  import opened Wrappers
  import opened Text
  import opened PyValues

  datatype Meta = Meta(created: Date, modified: int)

  datatype Node =
    | File(name: string, lines: seq<string>, json: Option<Value>, meta: Meta)
    | Dir(name: string, children: seq<Node>, meta: Meta)

  type Path = seq<string>

  /** `os.path.basename` */
  function Basename(p: Path): string {
    if p == [] then "" else p[|p| - 1]
  }

  /** `os.path.dirname` */
  function Dirname(p: Path): Path {
    if p == [] then [] else p[..|p| - 1]
  }

  /** The absolute path string, as `str(path)` prints it. */
  function PathString(p: Path): string {
    "/" + JoinWith(p, "/")
  }

  /** The first entry of a listing with the given name. */
  function ChildNamed(children: seq<Node>, name: string): (r: Option<Node>)
    ensures r.Some? ==> r.value in children && r.value.name == name
  {
    if |children| == 0 then None
    else if children[0].name == name then Some(children[0])
    else ChildNamed(children[1..], name)
  }

  /** The node at `p` below `n`, if there is one. */
  function NodeAt(n: Node, p: Path): Option<Node>
    decreases |p|
  {
    if p == [] then Some(n)
    else if n.Dir? then
      match ChildNamed(n.children, p[0])
      case Some(c) => NodeAt(c, p[1..])
      case None => None
    else None
  }

  /** `Path.exists()` */
  predicate Exists(fs: Node, p: Path) {
    NodeAt(fs, p).Some?
  }

  /** `Path.is_dir()` */
  predicate IsDir(fs: Node, p: Path) {
    NodeAt(fs, p).Some? && NodeAt(fs, p).value.Dir?
  }

  /** `Path.is_file()` */
  predicate IsFile(fs: Node, p: Path) {
    NodeAt(fs, p).Some? && NodeAt(fs, p).value.File?
  }

  /** Reaching `p + [x]` is reaching the directory `p`, then its first entry named `x`. */
  lemma {:induction false} NodeAtSnoc(n: Node, p: Path, x: string)
    ensures NodeAt(n, p + [x]) == (if NodeAt(n, p).Some? && NodeAt(n, p).value.Dir?
                                   then ChildNamed(NodeAt(n, p).value.children, x) else None)
    decreases |p|
  {
    if p == [] {
      assert p + [x] == [x];
    } else if n.Dir? {
      assert (p + [x])[0] == p[0] && (p + [x])[1..] == p[1..] + [x];
      match ChildNamed(n.children, p[0])
      case Some(c) => NodeAtSnoc(c, p[1..], x);
      case None =>
    }
  }

  /** Every entry's name finds an entry of the listing. */
  lemma {:induction false} ChildNamedIn(children: seq<Node>, c: Node)
    requires c in children
    ensures ChildNamed(children, c.name).Some?
  {
    if children[0] != c {
      ChildNamedIn(children[1..], c);
    }
  }

  /** `safe_iterdir` / `safe_scandir`: the entries of a directory, or nothing. */
  function ListDir(fs: Node, p: Path): seq<Node> {
    if IsDir(fs, p) then NodeAt(fs, p).value.children else []
  }

  /** `safe_file_read`: the whole text of a file, `None` when it cannot be read. */
  function ReadText(fs: Node, p: Path): Option<string> {
    if IsFile(fs, p) then Some(Concat(NodeAt(fs, p).value.lines)) else None
  }

  /** `safe_json_load`: the parsed content of a file, `None` when missing or malformed. */
  function LoadJson(fs: Node, p: Path): Option<Value> {
    if IsFile(fs, p) then NodeAt(fs, p).value.json else None
  }

  /**
   * `folder.glob("*.<ext>")` (also `get_all_files_by_extension`): the
   * entries of `folder`, in listing order, whose names end in `.<ext>`.
   */
  function GlobExt(fs: Node, folder: Path, ext: string): (r: seq<Path>)
    ensures forall q :: q in r ==> |q| == |folder| + 1 && q[..|folder|] == folder && EndsWith(q[|folder|], "." + ext)
  {
    GlobFrom(ListDir(fs, folder), folder, ext)
  }

  function GlobFrom(entries: seq<Node>, folder: Path, ext: string): (r: seq<Path>)
    ensures forall q :: q in r ==> |q| == |folder| + 1 && q[..|folder|] == folder && EndsWith(q[|folder|], "." + ext)
  {
    if |entries| == 0 then []
    else
      var q := folder + [entries[0].name];
      assert q[..|folder|] == folder;
      (if EndsWith(entries[0].name, "." + ext) then [q] else []) + GlobFrom(entries[1..], folder, ext)
  }

  // ---------------------------------------------------------------------------
  // os.walk
  // ---------------------------------------------------------------------------

  /** A sub-directory that the caller removes from `dirnames` is not descended into. */
  predicate Pruned(name: string, prune: bool) {
    prune && Contains(name, "_HD_")
  }

  predicate Descends(c: Node, prune: bool) {
    c.Dir? && !Pruned(c.name, prune)
  }

  /**
   * The files `os.walk` reports below `n` (which sits at `p`), top-down: the
   * files of `n` in listing order, then the walk of each sub-directory that
   * is not pruned, in listing order. With `prune`, sub-directories whose
   * names contain "_HD_" are dropped from `dirnames` before descending.
   */
  function WalkFiles(n: Node, p: Path, prune: bool): seq<Path>
    decreases n, 1, 0
  {
    if n.File? then [] else FilesIn(n.children, p, |n.children|) + WalkChildren(n, p, prune, 0)
  }

  /** The file paths among the first `k` entries of a listing. */
  function FilesIn(cs: seq<Node>, p: Path, k: nat): seq<Path>
    requires k <= |cs|
  {
    if k == 0 then []
    else FilesIn(cs, p, k - 1) + (if cs[k - 1].File? then [p + [cs[k - 1].name]] else [])
  }

  /** The walks of the descended sub-directories of `n` from entry `i` on. */
  function WalkChildren(n: Node, p: Path, prune: bool, i: nat): seq<Path>
    requires n.Dir?
    decreases n, 0, |n.children| - i
  {
    if i >= |n.children| then []
    else
      var c := n.children[i];
      (if Descends(c, prune) then WalkFiles(c, p + [c.name], prune) else [])
      + WalkChildren(n, p, prune, i + 1)
  }

  /** Every walked file lies strictly below `p` and below no pruned directory. */
  lemma {:induction false} WalkFilesShape(n: Node, p: Path, prune: bool, q: Path)
    requires q in WalkFiles(n, p, prune)
    ensures |q| > |p| && q[..|p|] == p
    ensures forall k :: |p| <= k < |q| - 1 ==> !Pruned(q[k], prune)
    decreases n, 1, 0
  {
    if q in FilesIn(n.children, p, |n.children|) {
      FilesInShape(n.children, p, |n.children|, q);
    } else {
      WalkChildrenShape(n, p, prune, 0, q);
    }
  }

  lemma {:induction false} FilesInShape(cs: seq<Node>, p: Path, k: nat, q: Path)
    requires k <= |cs| && q in FilesIn(cs, p, k)
    ensures |q| == |p| + 1 && q[..|p|] == p
  {
    if q !in FilesIn(cs, p, k - 1) {
      assert q == p + [cs[k - 1].name];
    } else {
      FilesInShape(cs, p, k - 1, q);
    }
  }

  lemma {:induction false} WalkChildrenShape(n: Node, p: Path, prune: bool, i: nat, q: Path)
    requires n.Dir? && q in WalkChildren(n, p, prune, i)
    ensures |q| > |p| && q[..|p|] == p
    ensures forall k :: |p| <= k < |q| - 1 ==> !Pruned(q[k], prune)
    decreases n, 0, |n.children| - i
  {
    var c := n.children[i];
    if Descends(c, prune) && q in WalkFiles(c, p + [c.name], prune) {
      WalkFilesShape(c, p + [c.name], prune, q);
      assert q[..|p| + 1][..|p|] == q[..|p|];
      assert q[|p|] == (p + [c.name])[|p|];
    } else {
      WalkChildrenShape(n, p, prune, i + 1, q);
    }
  }

  /** Everything `os.walk` still has to report for the directories on its stack. */
  function Pending(stack: seq<(Node, Path)>, prune: bool): seq<Path>
  {
    if stack == [] then []
    else
      var top := stack[|stack| - 1];
      WalkFiles(top.0, top.1, prune) + Pending(stack[..|stack| - 1], prune)
  }

  /** The descended sub-directories of `n` from entry `j` on, last one first. */
  function RevDirs(n: Node, p: Path, prune: bool, j: nat): seq<(Node, Path)>
    requires n.Dir?
    decreases |n.children| - j
  {
    if j >= |n.children| then []
    else
      var c := n.children[j];
      RevDirs(n, p, prune, j + 1) + (if Descends(c, prune) then [(c, p + [c.name])] else [])
  }

  /** Pushing one more directory puts its walk first. */
  lemma PendingSnoc(s: seq<(Node, Path)>, x: (Node, Path), prune: bool)
    ensures Pending(s + [x], prune) == WalkFiles(x.0, x.1, prune) + Pending(s, prune)
  {
    assert (s + [x])[..|s|] == s;
  }

  /** Pushing the sub-directories in reverse puts their walks first, in listing order. */
  lemma {:induction false} PendingPush(rest: seq<(Node, Path)>, n: Node, p: Path, prune: bool, j: nat)
    requires n.Dir?
    ensures Pending(rest + RevDirs(n, p, prune, j), prune) == WalkChildren(n, p, prune, j) + Pending(rest, prune)
    decreases |n.children| - j
  {
    if j < |n.children| {
      PendingPush(rest, n, p, prune, j + 1);
      PendingPushStep(rest, n, p, prune, j);
    } else {
      assert rest + [] == rest;
    }
  }

  lemma PendingPushStep(rest: seq<(Node, Path)>, n: Node, p: Path, prune: bool, j: nat)
    requires n.Dir? && j < |n.children|
    requires Pending(rest + RevDirs(n, p, prune, j + 1), prune) == WalkChildren(n, p, prune, j + 1) + Pending(rest, prune)
    ensures Pending(rest + RevDirs(n, p, prune, j), prune) == WalkChildren(n, p, prune, j) + Pending(rest, prune)
  {
    var c := n.children[j];
    var x := (c, p + [c.name]);
    var s := rest + RevDirs(n, p, prune, j + 1);
    if Descends(c, prune) {
      assert rest + RevDirs(n, p, prune, j) == s + [x];
      PendingSnoc(s, x, prune);
      Regroup(Pending(s + [x], prune), Pending(s, prune), WalkFiles(c, x.1, prune),
              WalkChildren(n, p, prune, j + 1), Pending(rest, prune), WalkChildren(n, p, prune, j));
    } else {
      SkipDir(rest, n, p, prune, j);
    }
  }

  lemma SkipDir(rest: seq<(Node, Path)>, n: Node, p: Path, prune: bool, j: nat)
    requires n.Dir? && j < |n.children| && !Descends(n.children[j], prune)
    ensures rest + RevDirs(n, p, prune, j) == rest + RevDirs(n, p, prune, j + 1)
    ensures WalkChildren(n, p, prune, j) == WalkChildren(n, p, prune, j + 1)
  {
  }

  /** Sequence bookkeeping for PendingPushStep. */
  lemma Regroup<T>(a: seq<T>, b: seq<T>, w: seq<T>, t: seq<T>, r: seq<T>, l: seq<T>)
    requires b == t + r && a == w + b && l == w + t
    ensures a == l + r
  {
  }

  /** The number of nodes in a tree, which bounds the work left to the walk. */
  function Size(n: Node): nat
    decreases n, 1, 0
  {
    if n.File? then 1 else 1 + SizeFrom(n, 0)
  }

  function SizeFrom(n: Node, i: nat): nat
    requires n.Dir?
    decreases n, 0, |n.children| - i
  {
    if i >= |n.children| then 0 else Size(n.children[i]) + SizeFrom(n, i + 1)
  }

  function StackSize(stack: seq<(Node, Path)>): nat {
    if stack == [] then 0 else StackSize(stack[..|stack| - 1]) + Size(stack[|stack| - 1].0)
  }

  lemma StackSizeSnoc(s: seq<(Node, Path)>, x: (Node, Path))
    ensures StackSize(s + [x]) == StackSize(s) + Size(x.0)
  {
    assert (s + [x])[..|s|] == s;
  }

  /** The files of one directory, in listing order (the `filenames` of one step). */
  method ListFiles(n: Node, p: Path) returns (files: seq<Path>)
    requires n.Dir?
    ensures files == FilesIn(n.children, p, |n.children|)
  {
    files := [];
    var i := 0;
    while i < |n.children|
      invariant 0 <= i <= |n.children|
      invariant files == FilesIn(n.children, p, i)
    {
      if n.children[i].File? {
        files := files + [p + [n.children[i].name]];
      }
      i := i + 1;
    }
  }

  /** Pushes the kept sub-directories of `n` last one first, so the first is popped next. */
  method PushDirs(rest: seq<(Node, Path)>, n: Node, p: Path, prune: bool) returns (stack: seq<(Node, Path)>)
    requires n.Dir?
    ensures stack == rest + RevDirs(n, p, prune, 0)
    ensures StackSize(stack) <= StackSize(rest) + SizeFrom(n, 0)
  {
    stack := rest;
    var j := |n.children|;
    while j > 0
      invariant 0 <= j <= |n.children|
      invariant stack == rest + RevDirs(n, p, prune, j)
      invariant StackSize(stack) <= StackSize(rest) + SizeFrom(n, j)
    {
      j := j - 1;
      var c := n.children[j];
      if Descends(c, prune) {
        StackSizeSnoc(stack, (c, p + [c.name]));
        stack := stack + [(c, p + [c.name])];
      }
    }
  }

  /**
   * `os.walk(top)` as its loop runs: pop a directory, report its files, push
   * its kept sub-directories in reverse so that they are visited in listing
   * order. Returns the paths of all files reported, in order.
   */
  method Walk(top: Node, topPath: Path, prune: bool) returns (files: seq<Path>)
    ensures files == WalkFiles(top, topPath, prune)
  {
    files := [];
    var stack := [(top, topPath)];
    PendingSnoc([], (top, topPath), prune);
    assert [] + [(top, topPath)] == stack;
    while stack != []
      invariant files + Pending(stack, prune) == WalkFiles(top, topPath, prune)
      decreases StackSize(stack)
    {
      var n := stack[|stack| - 1].0;
      var p := stack[|stack| - 1].1;
      var rest := stack[..|stack| - 1];
      assert stack == rest + [(n, p)];
      PendingSnoc(rest, (n, p), prune);
      StackSizeSnoc(rest, (n, p));
      if n.Dir? {
        var here := ListFiles(n, p);
        ghost var before := files;
        files := files + here;
        stack := PushDirs(rest, n, p, prune);
        PendingPush(rest, n, p, prune, 0);
        WalkStep(before, here, WalkChildren(n, p, prune, 0), Pending(rest, prune), Pending(stack, prune));
      } else {
        stack := rest;
      }
    }
  }

  /** Sequence bookkeeping for one step of Walk. */
  lemma WalkStep<T>(before: seq<T>, here: seq<T>, below: seq<T>, rest: seq<T>, pending: seq<T>)
    requires pending == below + rest
    ensures (before + here) + pending == before + ((here + below) + rest)
  {
  }
}
