/** `blur_all_photo` (faceblur.py:71-83): every directory that `os.walk` visits
    under the source root gets a mirror under the destination root, which is
    created with `os.makedirs(..., exist_ok=True)`, and every eligible file in
    it becomes one `face_blur` task. Absolute paths are sequences of components
    ("/a/b" is ["a", "b"], "/" is []); the directories that exist are a set of
    such paths, threaded through the loop as a value. */
module Mirror {
  import opened PosixPath
  import opened PhotoFiles

  type Path = seq<string>

  const CurDir: string := "."
  const ParDir: string := ".."

  /** A component as `os.path.abspath` leaves it. */
  predicate IsName(c: string) {
    c != [] && Sep !in c && c != CurDir && c != ParDir
  }

  predicate Canonical(p: Path) {
    forall k | 0 <= k < |p| :: IsName(p[k])
  }

  /** The text of an absolute path: "/" for the root, "/a/b" below it. */
  function PathString(p: Path): string
    decreases |p|
  {
    if p == [] then [Sep] else Join(PathString(p[..|p| - 1]), p[|p| - 1])
  }

  /** Appending a component joins it onto the text. */
  lemma PathStringSnoc(p: Path, c: string)
    ensures PathString(p + [c]) == Join(PathString(p), c)
  {
    assert (p + [c])[..|p|] == p;
  }

  /** Length of the longest common prefix (`os.path.commonprefix` of two component lists). */
  function CommonPrefixLength(a: Path, b: Path): (n: nat)
    ensures n <= |a| && n <= |b| && a[..n] == b[..n]
    ensures n < |a| && n < |b| ==> a[n] != b[n]
  {
    if a == [] || b == [] || a[0] != b[0] then 0
    else
      var n := 1 + CommonPrefixLength(a[1..], b[1..]);
      assert a[..n] == [a[0]] + a[1..][..n - 1];
      assert b[..n] == [b[0]] + b[1..][..n - 1];
      n
  }

  /** `os.path.relpath(path, start)`: climb out of what `start` does not share
      with `path`, then go down the rest of `path`; "." when they are equal. */
  function RelPath(path: Path, start: Path): Path {
    var i := CommonPrefixLength(start, path);
    var rel := seq(|start| - i, _ => ParDir) + path[i..];
    if rel == [] then [CurDir] else rel
  }

  /** The lexical part of `os.path.realpath`: "" and "." are dropped and ".."
      removes the previous component (the root is its own parent). */
  function Normalize(p: Path): Path
    decreases |p|
  {
    if p == [] then []
    else
      var q := Normalize(p[..|p| - 1]);
      var c := p[|p| - 1];
      if c == [] || c == CurDir then q
      else if c == ParDir then (if q == [] then [] else q[..|q| - 1])
      else q + [c]
  }

  /** `new_root_path` for a walked directory (faceblur.py:79-80): the
      destination root joined with the directory's path relative to the source root. */
  function MirrorDir(src: Path, dest: Path, root: Path): Path {
    Normalize(dest + RelPath(root, src))
  }

  /** An already canonical path is left as it is. */
  lemma {:induction false} NormalizeCanonical(p: Path)
    requires Canonical(p)
    ensures Normalize(p) == p
    decreases |p|
  {
    if p != [] {
      NormalizeCanonical(p[..|p| - 1]);
    }
  }

  /** Relative to the source root, a directory below it is the part below it. */
  lemma RelPathBelow(src: Path, sub: Path)
    ensures RelPath(src + sub, src) == if sub == [] then [CurDir] else sub
  {
    var n := CommonPrefixLength(src, src + sub);
    assert n == |src|;
    assert (src + sub)[|src|..] == sub;
  }

  /** The mirror is a prefix swap: the directory `src + sub` maps to `dest + sub`. */
  lemma MirrorDirBelow(src: Path, dest: Path, sub: Path)
    requires Canonical(dest) && Canonical(sub)
    ensures MirrorDir(src, dest, src + sub) == dest + sub
  {
    RelPathBelow(src, sub);
    if sub == [] {
      assert (dest + [CurDir])[..|dest|] == dest;
      NormalizeCanonical(dest);
      assert dest + sub == dest;
    } else {
      NormalizeCanonical(dest + sub);
    }
  }

  /** The source root itself (relative path ".") maps to the destination root. */
  lemma MirrorDirOfSourceRoot(src: Path, dest: Path)
    requires Canonical(dest)
    ensures MirrorDir(src, dest, src) == dest
  {
    MirrorDirBelow(src, dest, []);
    assert src + [] == src;
  }

  /** Distinct directories below the source root get distinct mirrors. */
  lemma MirrorDirInjective(src: Path, dest: Path, sub1: Path, sub2: Path)
    requires Canonical(dest) && Canonical(sub1) && Canonical(sub2)
    requires sub1 != sub2
    ensures MirrorDir(src, dest, src + sub1) != MirrorDir(src, dest, src + sub2)
  {
    MirrorDirBelow(src, dest, sub1);
    MirrorDirBelow(src, dest, sub2);
    assert (dest + sub1)[|dest|..] == sub1 && (dest + sub2)[|dest|..] == sub2;
  }

  /** A directory and every directory above it. */
  function Ancestors(p: Path): set<Path> {
    set k | 0 <= k <= |p| :: p[..k]
  }

  /** `os.makedirs(p, exist_ok=True)` on the set of existing directories:
      `p` and any missing parent are created, and an existing one is no error. */
  function MakeDirs(dirs: set<Path>, p: Path): set<Path> {
    dirs + Ancestors(p)
  }

  /** After `makedirs(p)` exactly the directories that existed and those on
      the way from the root to `p` exist; in particular `p` itself does. */
  lemma MakeDirsIff(dirs: set<Path>, p: Path, q: Path)
    ensures q in MakeDirs(dirs, p) <==> q in dirs || (|q| <= |p| && q == p[..|q|])
    ensures p in MakeDirs(dirs, p)
  {
    assert p == p[..|p|];
  }

  /** Creating the same directory again changes nothing. */
  lemma MakeDirsIdempotent(dirs: set<Path>, p: Path)
    ensures MakeDirs(MakeDirs(dirs, p), p) == MakeDirs(dirs, p)
  {
  }

  /** Creation order does not matter. */
  lemma MakeDirsCommute(dirs: set<Path>, p: Path, q: Path)
    ensures MakeDirs(MakeDirs(dirs, p), q) == MakeDirs(MakeDirs(dirs, q), p)
  {
  }

  /** One `(root, subdirs, files)` triple of `os.walk`; `subdirs` plays no part. */
  datatype WalkEntry = WalkEntry(root: Path, files: seq<string>)

  /** `makedirs` of each path in turn. */
  function MakeAll(dirs: set<Path>, ps: seq<Path>): set<Path>
    decreases |ps|
  {
    if ps == [] then dirs else MakeDirs(MakeAll(dirs, ps[..|ps| - 1]), ps[|ps| - 1])
  }

  /** The values of the present options, in order. */
  function Somes<T>(xs: seq<Option<T>>): seq<T>
    decreases |xs|
  {
    if xs == [] then []
    else Somes(xs[..|xs| - 1]) + (if xs[|xs| - 1].Some? then [xs[|xs| - 1].value] else [])
  }

  /** What `[blur_photo(root, new_root_path, f) for f in files]` does, file by file. */
  function PhotoCalls(root: string, newRoot: string, files: seq<string>): seq<Option<Task>> {
    seq(|files|, m requires 0 <= m < |files| => BlurPhoto(root, newRoot, files[m]))
  }

  lemma PhotoCallsAt(root: string, newRoot: string, files: seq<string>, m: nat)
    requires m < |files|
    ensures |PhotoCalls(root, newRoot, files)| == |files|
    ensures PhotoCalls(root, newRoot, files)[m] == BlurPhoto(root, newRoot, files[m])
  {
  }

  /** The `face_blur` calls made for one directory's files, in order. */
  function FileTasks(root: string, newRoot: string, files: seq<string>): seq<Task> {
    Somes(PhotoCalls(root, newRoot, files))
  }

  /** The tasks for one walked directory. */
  function EntryTasks(src: Path, dest: Path, e: WalkEntry): seq<Task> {
    FileTasks(PathString(e.root), PathString(MirrorDir(src, dest, e.root)), e.files)
  }

  /** The lists one after the other. */
  function Concat<T>(xss: seq<seq<T>>): seq<T>
    decreases |xss|
  {
    if xss == [] then [] else Concat(xss[..|xss| - 1]) + xss[|xss| - 1]
  }

  /** The tasks of each walked directory, in walk order. */
  function EntryLists(src: Path, dest: Path, walk: seq<WalkEntry>): seq<seq<Task>> {
    seq(|walk|, k requires 0 <= k < |walk| => EntryTasks(src, dest, walk[k]))
  }

  /** All tasks of a walk, directory after directory. */
  function PlannedTasks(src: Path, dest: Path, walk: seq<WalkEntry>): seq<Task> {
    Concat(EntryLists(src, dest, walk))
  }

  /** The mirror of every walked directory, in walk order. */
  function Mirrors(src: Path, dest: Path, walk: seq<WalkEntry>): seq<Path> {
    seq(|walk|, k requires 0 <= k < |walk| => MirrorDir(src, dest, walk[k].root))
  }

  /** The directories that exist after the walk, starting from `dirs`. */
  function CreatedDirs(dirs: set<Path>, src: Path, dest: Path, walk: seq<WalkEntry>): set<Path> {
    MakeAll(dirs, Mirrors(src, dest, walk))
  }

  lemma SomesSnoc<T>(xs: seq<Option<T>>, x: Option<T>)
    ensures Somes(xs + [x]) == Somes(xs) + (if x.Some? then [x.value] else [])
  {
    assert (xs + [x])[..|xs|] == xs;
  }

  lemma MakeAllSnoc(dirs: set<Path>, ps: seq<Path>, p: Path)
    ensures MakeAll(dirs, ps + [p]) == MakeDirs(MakeAll(dirs, ps), p)
  {
    assert (ps + [p])[..|ps|] == ps;
  }

  /** One more file: its call is appended. */
  lemma FileTasksStep(root: string, newRoot: string, files: seq<string>, m: nat)
    requires m < |files|
    ensures var t := BlurPhoto(root, newRoot, files[m]);
      FileTasks(root, newRoot, files[..m + 1]) ==
      FileTasks(root, newRoot, files[..m]) + (if t.Some? then [t.value] else [])
  {
    var calls := PhotoCalls(root, newRoot, files[..m + 1]);
    assert calls == PhotoCalls(root, newRoot, files[..m]) + [BlurPhoto(root, newRoot, files[m])];
    SomesSnoc(PhotoCalls(root, newRoot, files[..m]), BlurPhoto(root, newRoot, files[m]));
  }

  lemma MirrorsSnoc(src: Path, dest: Path, walk: seq<WalkEntry>, n: nat)
    requires n < |walk|
    ensures Mirrors(src, dest, walk[..n + 1]) ==
      Mirrors(src, dest, walk[..n]) + [MirrorDir(src, dest, walk[n].root)]
  {
    var longer, shorter := Mirrors(src, dest, walk[..n + 1]), Mirrors(src, dest, walk[..n]);
    forall k | 0 <= k < n ensures longer[k] == shorter[k] {
      assert walk[..n + 1][k] == walk[..n][k];
    }
  }

  /** One more walked directory: its mirror is created. */
  lemma WalkStepDirs(dirs: set<Path>, src: Path, dest: Path, walk: seq<WalkEntry>, n: nat)
    requires n < |walk|
    ensures CreatedDirs(dirs, src, dest, walk[..n + 1]) ==
      MakeDirs(CreatedDirs(dirs, src, dest, walk[..n]), MirrorDir(src, dest, walk[n].root))
  {
    MirrorsSnoc(src, dest, walk, n);
    MakeAllSnoc(dirs, Mirrors(src, dest, walk[..n]), MirrorDir(src, dest, walk[n].root));
  }

  /** One more walked directory: its tasks are appended. */
  lemma WalkStepTasks(src: Path, dest: Path, walk: seq<WalkEntry>, n: nat)
    requires n < |walk|
    ensures PlannedTasks(src, dest, walk[..n + 1]) ==
      PlannedTasks(src, dest, walk[..n]) + EntryTasks(src, dest, walk[n])
  {
    var longer, shorter := EntryLists(src, dest, walk[..n + 1]), EntryLists(src, dest, walk[..n]);
    forall k | 0 <= k < n ensures longer[k] == shorter[k] {
      assert walk[..n + 1][k] == walk[..n][k];
    }
    assert longer[..n] == shorter;
    assert longer[n] == EntryTasks(src, dest, walk[n]);
  }

  /** `blur_photo` on each file of one walked directory, in order, keeping
      the `face_blur` calls that are made. */
  method DirectoryTasks(root: string, newRoot: string, files: seq<string>) returns (tasks: seq<Task>)
    ensures tasks == FileTasks(root, newRoot, files)
  {
    tasks := [];
    for m := 0 to |files|
      invariant tasks == FileTasks(root, newRoot, files[..m])
    {
      FileTasksStep(root, newRoot, files, m);
      var t := BlurPhoto(root, newRoot, files[m]);
      if t.Some? {
        tasks := tasks + [t.value];
      }
    }
    assert files[..|files|] == files;
  }

  /** The sequential pass of `blur_all_photo` (faceblur.py:78-83): for each
      walked directory, create its mirror, then collect the task of every
      eligible file in it. Returns the directories that exist afterwards and
      the `face_blur` calls in the order they are made. */
  method BlurAllPhoto(src: Path, dest: Path, walk: seq<WalkEntry>, existing: set<Path>)
    returns (dirs: set<Path>, tasks: seq<Task>)
    ensures dirs == CreatedDirs(existing, src, dest, walk)
    ensures tasks == PlannedTasks(src, dest, walk)
  {
    dirs, tasks := existing, [];
    for n := 0 to |walk|
      invariant dirs == CreatedDirs(existing, src, dest, walk[..n])
      invariant tasks == PlannedTasks(src, dest, walk[..n])
    {
      var root, files := walk[n].root, walk[n].files;
      var newRoot := MirrorDir(src, dest, root);
      WalkStepDirs(existing, src, dest, walk, n);
      WalkStepTasks(src, dest, walk, n);
      dirs := MakeDirs(dirs, newRoot);
      var found := DirectoryTasks(PathString(root), PathString(newRoot), files);
      tasks := tasks + found;
    }
    assert walk[..|walk|] == walk;
  }

  /** A path exists after `makedirs` of each of `ps` exactly when it existed
      before or lies on the way to one of them. */
  lemma {:induction false} MakeAllIff(dirs: set<Path>, ps: seq<Path>, q: Path)
    ensures q in MakeAll(dirs, ps) <==> q in dirs || exists k | 0 <= k < |ps| :: q in Ancestors(ps[k])
    decreases |ps|
  {
    if ps != [] {
      var init := ps[..|ps| - 1];
      MakeAllIff(dirs, init, q);
      if exists k | 0 <= k < |init| :: q in Ancestors(init[k]) {
        var k :| 0 <= k < |init| && q in Ancestors(init[k]);
        assert ps[k] == init[k];
      }
    }
  }

  /** The values of the present options are exactly those present somewhere. */
  lemma {:induction false} SomesIff<T>(xs: seq<Option<T>>, t: T)
    ensures t in Somes(xs) <==> exists m | 0 <= m < |xs| :: xs[m] == Some(t)
    decreases |xs|
  {
    if xs != [] {
      var init := xs[..|xs| - 1];
      SomesIff(init, t);
      if exists m | 0 <= m < |init| :: init[m] == Some(t) {
        var m :| 0 <= m < |init| && init[m] == Some(t);
        assert xs[m] == init[m];
      }
    }
  }

  /** An element of the concatenation is an element of one of the lists. */
  lemma {:induction false} ConcatIff<T>(xss: seq<seq<T>>, t: T)
    ensures t in Concat(xss) <==> exists k | 0 <= k < |xss| :: t in xss[k]
    decreases |xss|
  {
    if xss != [] {
      var init := xss[..|xss| - 1];
      ConcatIff(init, t);
      if exists k | 0 <= k < |init| :: t in init[k] {
        var k :| 0 <= k < |init| && t in init[k];
        assert xss[k] == init[k];
      }
    }
  }

  /** A directory exists after the walk exactly when it existed before or lies
      on the way to the mirror of some walked directory. */
  lemma CreatedDirsIff(dirs: set<Path>, src: Path, dest: Path, walk: seq<WalkEntry>, q: Path)
    ensures q in CreatedDirs(dirs, src, dest, walk) <==>
      q in dirs || exists k | 0 <= k < |walk| :: q in Ancestors(MirrorDir(src, dest, walk[k].root))
  {
    var ms := Mirrors(src, dest, walk);
    MakeAllIff(dirs, ms, q);
    if exists k | 0 <= k < |ms| :: q in Ancestors(ms[k]) {
      var k :| 0 <= k < |ms| && q in Ancestors(ms[k]);
      assert ms[k] == MirrorDir(src, dest, walk[k].root);
    }
    if exists k | 0 <= k < |walk| :: q in Ancestors(MirrorDir(src, dest, walk[k].root)) {
      var k :| 0 <= k < |walk| && q in Ancestors(MirrorDir(src, dest, walk[k].root));
      assert ms[k] == MirrorDir(src, dest, walk[k].root);
    }
  }

  /** Running the directory creation of a walk a second time over its own
      result creates nothing new and fails on nothing. */
  lemma CreatedDirsIdempotent(dirs: set<Path>, src: Path, dest: Path, walk: seq<WalkEntry>)
    ensures CreatedDirs(CreatedDirs(dirs, src, dest, walk), src, dest, walk) == CreatedDirs(dirs, src, dest, walk)
  {
    var once := CreatedDirs(dirs, src, dest, walk);
    forall q ensures q in CreatedDirs(once, src, dest, walk) <==> q in once {
      CreatedDirsIff(once, src, dest, walk, q);
      CreatedDirsIff(dirs, src, dest, walk, q);
    }
  }

  /** `os.walk` below `src`: every root is `src` followed by canonical names,
      and file names hold no separator. */
  predicate WalkBelow(src: Path, walk: seq<WalkEntry>) {
    forall k | 0 <= k < |walk| ::
      |src| <= |walk[k].root| && walk[k].root[..|src|] == src &&
      Canonical(walk[k].root[|src|..]) &&
      forall m | 0 <= m < |walk[k].files| :: Sep !in walk[k].files[m]
  }

  /** Before any file of a walked directory is written, its mirror exists. */
  lemma MirrorsExist(dirs: set<Path>, src: Path, dest: Path, walk: seq<WalkEntry>, k: nat)
    requires Canonical(dest) && WalkBelow(src, walk) && k < |walk|
    ensures dest + walk[k].root[|src|..] in CreatedDirs(dirs, src, dest, walk[..k + 1])
  {
    var root := walk[k].root;
    var sub := root[|src|..];
    assert root == src + sub;
    MirrorDirBelow(src, dest, sub);
    WalkStepDirs(dirs, src, dest, walk, k);
    MakeDirsIff(CreatedDirs(dirs, src, dest, walk[..k]), MirrorDir(src, dest, root), dest + sub);
  }

  /** A task is in the list of one directory's files exactly when it is the
      task of one of its eligible files. */
  lemma FileTasksIff(root: string, newRoot: string, files: seq<string>, t: Task)
    ensures t in FileTasks(root, newRoot, files) <==>
      exists m | 0 <= m < |files| :: BlurPhoto(root, newRoot, files[m]) == Some(t)
  {
    var calls := PhotoCalls(root, newRoot, files);
    SomesIff(calls, t);
    if exists m | 0 <= m < |calls| :: calls[m] == Some(t) {
      var m :| 0 <= m < |calls| && calls[m] == Some(t);
      PhotoCallsAt(root, newRoot, files, m);
    }
    if exists m | 0 <= m < |files| :: BlurPhoto(root, newRoot, files[m]) == Some(t) {
      var m :| 0 <= m < |files| && BlurPhoto(root, newRoot, files[m]) == Some(t);
      PhotoCallsAt(root, newRoot, files, m);
    }
  }

  /** A task of the walk is a task of one of its directories, and back. */
  lemma {:induction false} PlannedTasksIff(src: Path, dest: Path, walk: seq<WalkEntry>, t: Task)
    ensures t in PlannedTasks(src, dest, walk) <==>
      exists k | 0 <= k < |walk| :: t in EntryTasks(src, dest, walk[k])
  {
    var lists := EntryLists(src, dest, walk);
    ConcatIff(lists, t);
    if exists k | 0 <= k < |lists| :: t in lists[k] {
      var k :| 0 <= k < |lists| && t in lists[k];
      assert lists[k] == EntryTasks(src, dest, walk[k]);
    }
    if exists k | 0 <= k < |walk| :: t in EntryTasks(src, dest, walk[k]) {
      var k :| 0 <= k < |walk| && t in EntryTasks(src, dest, walk[k]);
      assert lists[k] == EntryTasks(src, dest, walk[k]);
    }
  }

  /** The task of an eligible file `f` in the directory `src + sub` reads
      `src/sub/f` and writes `dest/sub/f`: the path below the destination root
      is the path below the source root. */
  lemma TaskOfFile(src: Path, dest: Path, sub: Path, f: string)
    requires Canonical(dest) && Canonical(sub) && Sep !in f && Eligible(f)
    ensures BlurPhoto(PathString(src + sub), PathString(MirrorDir(src, dest, src + sub)), f) ==
      Some(Task(PathString(src + sub + [f]), PathString(dest + sub + [f])))
  {
    MirrorDirBelow(src, dest, sub);
    var from, to := PathString(src + sub), PathString(dest + sub);
    BasenameParts(f);
    assert BlurPhoto(from, to, f) == Some(Task(Join(from, f), Join(to, f)));
    PathStringSnoc(src + sub, f);
    PathStringSnoc(dest + sub, f);
  }

  /** `t` is the task of the `m`-th file of the `k`-th walked directory, with
      the destination below `dest` by the same path as the source below `src`. */
  predicate MirroredTask(src: Path, dest: Path, walk: seq<WalkEntry>, k: int, m: int, t: Task) {
    0 <= k < |walk| && 0 <= m < |walk[k].files| && |src| <= |walk[k].root| &&
    var f := walk[k].files[m];
    Eligible(f) &&
    t == Task(PathString(walk[k].root + [f]), PathString(dest + walk[k].root[|src|..] + [f]))
  }

  /** Every `face_blur` call of the walk is for an eligible file and writes to
      the mirrored path, and every eligible file gets such a call. */
  lemma PlannedTasksMirrored(src: Path, dest: Path, walk: seq<WalkEntry>, t: Task)
    requires Canonical(dest) && WalkBelow(src, walk)
    ensures t in PlannedTasks(src, dest, walk) <==>
      exists k, m :: MirroredTask(src, dest, walk, k, m, t)
  {
    PlannedTasksIff(src, dest, walk, t);
    forall k | 0 <= k < |walk|
      ensures t in EntryTasks(src, dest, walk[k]) <==> exists m :: MirroredTask(src, dest, walk, k, m, t)
    {
      var e := walk[k];
      var sub := e.root[|src|..];
      assert e.root == src + sub;
      FileTasksIff(PathString(e.root), PathString(MirrorDir(src, dest, e.root)), e.files, t);
      forall m | 0 <= m < |e.files|
        ensures BlurPhoto(PathString(e.root), PathString(MirrorDir(src, dest, e.root)), e.files[m]) == Some(t)
          <==> MirroredTask(src, dest, walk, k, m, t)
      {
        if Eligible(e.files[m]) {
          TaskOfFile(src, dest, sub, e.files[m]);
        }
      }
    }
  }

  /** The eligible files of a directory, in file order. */
  function Photos(files: seq<string>): seq<string>
    decreases |files|
  {
    if files == [] then []
    else Photos(files[..|files| - 1]) + (if Eligible(files[|files| - 1]) then [files[|files| - 1]] else [])
  }

  /** A name is among the photos exactly when it is an eligible file of the directory. */
  lemma {:induction false} PhotosIff(files: seq<string>, f: string)
    ensures f in Photos(files) <==> f in files && Eligible(f)
    decreases |files|
  {
    if files != [] {
      var init := files[..|files| - 1];
      PhotosIff(init, f);
      assert files == init + [files[|files| - 1]];
    }
  }

  /** The i-th `face_blur` call made for a directory is `blur_photo` of its
      i-th eligible file: one call per photo, in file order. */
  lemma {:induction false} FileTasksInOrder(root: string, newRoot: string, files: seq<string>)
    ensures |FileTasks(root, newRoot, files)| == |Photos(files)|
    ensures forall i | 0 <= i < |Photos(files)| ::
      BlurPhoto(root, newRoot, Photos(files)[i]) == Some(FileTasks(root, newRoot, files)[i])
    decreases |files|
  {
    if files != [] {
      var n := |files| - 1;
      FileTasksInOrder(root, newRoot, files[..n]);
      FileTasksStep(root, newRoot, files, n);
      assert files[..n + 1] == files;
    }
  }

  /** The mirrored task of each eligible file of a walked directory, in file order. */
  function MirroredEntry(src: Path, dest: Path, e: WalkEntry): seq<Task>
    requires |src| <= |e.root|
  {
    var photos := Photos(e.files);
    seq(|photos|, i requires 0 <= i < |photos| =>
      Task(PathString(e.root + [photos[i]]), PathString(dest + e.root[|src|..] + [photos[i]])))
  }

  /** One directory below the source root: its calls are the mirrored tasks
      of its photos, in file order. */
  lemma EntryTasksMirrored(src: Path, dest: Path, e: WalkEntry)
    requires Canonical(dest) && |src| <= |e.root| && e.root[..|src|] == src
    requires Canonical(e.root[|src|..])
    requires forall m | 0 <= m < |e.files| :: Sep !in e.files[m]
    ensures EntryTasks(src, dest, e) == MirroredEntry(src, dest, e)
  {
    var sub := e.root[|src|..];
    assert e.root == src + sub;
    var from, to := PathString(e.root), PathString(MirrorDir(src, dest, e.root));
    var photos := Photos(e.files);
    FileTasksInOrder(from, to, e.files);
    var ts, ms := EntryTasks(src, dest, e), MirroredEntry(src, dest, e);
    forall i | 0 <= i < |ms| ensures ts[i] == ms[i] {
      var f := photos[i];
      PhotosIff(e.files, f);
      var m :| 0 <= m < |e.files| && e.files[m] == f;
      TaskOfFile(src, dest, sub, f);
    }
  }

  /** The mirrored tasks of every walked directory, in walk order. */
  function MirroredLists(src: Path, dest: Path, walk: seq<WalkEntry>): seq<seq<Task>>
    requires WalkBelow(src, walk)
  {
    seq(|walk|, k requires 0 <= k < |walk| => MirroredEntry(src, dest, walk[k]))
  }

  /** The calls of the walk are, directory by directory in walk order and
      file by file in file order, exactly one mirrored task per eligible file. */
  lemma PlannedTasksInOrder(src: Path, dest: Path, walk: seq<WalkEntry>)
    requires Canonical(dest) && WalkBelow(src, walk)
    ensures PlannedTasks(src, dest, walk) == Concat(MirroredLists(src, dest, walk))
  {
    var es, ms := EntryLists(src, dest, walk), MirroredLists(src, dest, walk);
    forall k | 0 <= k < |walk| ensures es[k] == ms[k] {
      EntryTasksMirrored(src, dest, walk[k]);
    }
    assert es == ms;
  }
}
