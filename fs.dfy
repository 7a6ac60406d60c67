/** The consumer project as the CLI sees it through `fs-extra`, `path` and `execa`: a disk of text files
    and directories (paths relative to the working directory), and the ordered trace of the effects the
    CLI performs on it. */
module Fs {
  import opened Wrappers
  import opened Text

  // ---------------------------------------------------------------- paths (node's `path`)

  /** `path.join(a, b)` for two relative, already normal paths. */
  function PathJoin(a: string, b: string): string {
    a + "/" + b
  }

  /** A suffix of the last component is a suffix of the joined path. */
  lemma PathJoinSuffix(a: string, b: string, ext: string)
    ensures PathJoin(a, b + ext) == PathJoin(a, b) + ext
  {
    assert a + "/" + (b + ext) == (a + "/" + b) + ext;
  }

  /** The index of the last `c` in `s`. */
  function LastIndexOfChar(s: string, c: char): (r: Option<nat>)
    ensures r.Some? ==> r.value < |s| && s[r.value] == c
    ensures r.Some? ==> forall j :: r.value < j < |s| ==> s[j] != c
    ensures r.None? <==> c !in s
    decreases |s|
  {
    if s == [] then None
    else if s[|s| - 1] == c then Some(|s| - 1)
    else
      assert s == s[..|s| - 1] + [s[|s| - 1]];
      LastIndexOfChar(s[..|s| - 1], c)
  }

  function TrimTrailingSlashes(p: string): (r: string)
    ensures r == [] || r[|r| - 1] != '/'
  {
    if p != [] && p[|p| - 1] == '/' then TrimTrailingSlashes(p[..|p| - 1]) else p
  }

  /** `path.basename(p)`: the last component, trailing separators ignored. */
  function Basename(p: string): (r: string)
    ensures '/' !in r
  {
    var q := TrimTrailingSlashes(p);
    match LastIndexOfChar(q, '/')
    case None => q
    case Some(k) => q[k + 1..]
  }

  /** The basename of `dir/name` is `name` when `name` is a single non-empty component. */
  lemma BasenameOfJoin(dir: string, name: string)
    requires name != [] && '/' !in name
    ensures Basename(PathJoin(dir, name)) == name
  {
    var q := PathJoin(dir, name);
    assert q[|q| - 1] == name[|name| - 1];
    assert TrimTrailingSlashes(q) == q;
    assert q[|dir|] == '/';
    var k := LastIndexOfChar(q, '/');
    assert k.Some?;
    assert k.value >= |dir|;
    assert q[|dir| + 1..] == name;
  }

  /** `path.dirname(p)`: everything before the last separator, "." when there is none. */
  function Dirname(p: string): string {
    match LastIndexOfChar(p, '/')
    case None => "."
    case Some(k) => if k == 0 then "/" else p[..k]
  }

  /** The directories `fs.ensureDir(d)` (mkdir -p) makes sure of: `d` and each of its ancestors. */
  function DirChain(d: string): set<string> {
    if d == "." || d == "" then {}
    else set i | 0 < i <= |d| && (i == |d| || d[i] == '/') :: d[..i]
  }

  /** `k` is `p` or lies below it. */
  predicate Under(k: string, p: string) {
    k == p || StartsWith(k, p + "/")
  }

  // ---------------------------------------------------------------- state and effects

  datatype Disk = Disk(files: map<string, string>, dirs: set<string>)

  datatype PackageManager = Npm | Yarn | Pnpm

  /** One run of an external package manager: the program and its argument list. */
  datatype Invocation = Invocation(manager: PackageManager, args: seq<string>)

  /** The observable effects, in the order the CLI performs them. */
  datatype Effect =
    | Fetched(source: string)     // a component file read from the local checkout or GitHub
    | Wrote(path: string)         // fs.writeFile / fs.writeJson
    | Ran(call: Invocation)       // execa(packageManager, args)
    | Deleted(path: string)       // fs.remove
    | RemovedDir(path: string)    // fs.rmdir

  datatype World = World(disk: Disk, trace: seq<Effect>)

  /** `fs.pathExists`: true for files and directories alike. */
  predicate Exists(disk: Disk, p: string) {
    p in disk.files || p in disk.dirs
  }

  /** `fs.readdir(d)` would list nothing. */
  predicate IsEmptyDir(disk: Disk, d: string) {
    && (forall k :: k in disk.files ==> Dirname(k) != d)
    && (forall k :: k in disk.dirs ==> Dirname(k) != d)
  }

  function Fetch(w: World, source: string): (r: World)
    ensures r.disk == w.disk && r.trace == w.trace + [Fetched(source)]
    ensures Fetches(r.trace) == Fetches(w.trace) + [source] && Runs(r.trace) == Runs(w.trace)
  {
    assert (w.trace + [Fetched(source)])[..|w.trace|] == w.trace;
    w.(trace := w.trace + [Fetched(source)])
  }

  function MakeDirs(w: World, d: string): (r: World)
    ensures r.disk.files == w.disk.files && r.disk.dirs == w.disk.dirs + DirChain(d) && r.trace == w.trace
  {
    w.(disk := w.disk.(dirs := w.disk.dirs + DirChain(d)))
  }

  function Write(w: World, p: string, text: string): (r: World)
    ensures r.disk.files == w.disk.files[p := text] && r.disk.dirs == w.disk.dirs
    ensures r.trace == w.trace + [Wrote(p)]
    ensures Fetches(r.trace) == Fetches(w.trace) && Runs(r.trace) == Runs(w.trace)
  {
    assert (w.trace + [Wrote(p)])[..|w.trace|] == w.trace;
    World(w.disk.(files := w.disk.files[p := text]), w.trace + [Wrote(p)])
  }

  /** `fs.remove(p)`: like `rm -rf`, it takes `p` and everything below it. */
  function RemovePath(w: World, p: string): (r: World)
    ensures forall k :: k in r.disk.files <==> k in w.disk.files && !Under(k, p)
    ensures forall k :: k in r.disk.files ==> r.disk.files[k] == w.disk.files[k]
    ensures forall k :: k in r.disk.dirs <==> k in w.disk.dirs && !Under(k, p)
    ensures r.trace == w.trace + [Deleted(p)]
    ensures Fetches(r.trace) == Fetches(w.trace) && Runs(r.trace) == Runs(w.trace)
  {
    assert (w.trace + [Deleted(p)])[..|w.trace|] == w.trace;
    var files := map k | k in w.disk.files && !Under(k, p) :: w.disk.files[k];
    var dirs := set k | k in w.disk.dirs && !Under(k, p);
    World(Disk(files, dirs), w.trace + [Deleted(p)])
  }

  function RemoveDir(w: World, d: string): (r: World)
    ensures r.disk.files == w.disk.files && r.disk.dirs == w.disk.dirs - {d}
    ensures r.trace == w.trace + [RemovedDir(d)]
    ensures Fetches(r.trace) == Fetches(w.trace) && Runs(r.trace) == Runs(w.trace)
  {
    assert (w.trace + [RemovedDir(d)])[..|w.trace|] == w.trace;
    World(w.disk.(dirs := w.disk.dirs - {d}), w.trace + [RemovedDir(d)])
  }

  function Run(w: World, call: Invocation): (r: World)
    ensures r.disk == w.disk && r.trace == w.trace + [Ran(call)]
    ensures Fetches(r.trace) == Fetches(w.trace) && Runs(r.trace) == Runs(w.trace) + [call]
  {
    assert (w.trace + [Ran(call)])[..|w.trace|] == w.trace;
    w.(trace := w.trace + [Ran(call)])
  }

  /** The package-manager runs recorded in a trace, in order. */
  function Runs(t: seq<Effect>): seq<Invocation>
    decreases |t|
  {
    if t == [] then []
    else Runs(t[..|t| - 1]) + (if t[|t| - 1].Ran? then [t[|t| - 1].call] else [])
  }

  /** The component sources fetched in a trace, in order. */
  function Fetches(t: seq<Effect>): seq<string>
    decreases |t|
  {
    if t == [] then []
    else Fetches(t[..|t| - 1]) + (if t[|t| - 1].Fetched? then [t[|t| - 1].source] else [])
  }

  lemma {:induction false} FetchesAppend(a: seq<Effect>, b: seq<Effect>)
    ensures Fetches(a + b) == Fetches(a) + Fetches(b)
    decreases |b|
  {
    if b != [] {
      assert (a + b)[..|a + b| - 1] == a + b[..|b| - 1];
      FetchesAppend(a, b[..|b| - 1]);
    } else {
      assert a + b == a;
    }
  }

  lemma {:induction false} RunsAppend(a: seq<Effect>, b: seq<Effect>)
    ensures Runs(a + b) == Runs(a) + Runs(b)
    decreases |b|
  {
    if b != [] {
      assert (a + b)[..|a + b| - 1] == a + b[..|b| - 1];
      RunsAppend(a, b[..|b| - 1]);
    } else {
      assert a + b == a;
    }
  }

  /** The consumer project the commands change in place. */
  class Workspace {
    var files: map<string, string>
    var dirs: set<string>
    var trace: seq<Effect>

    function State(): World
      reads this
    {
      World(Disk(files, dirs), trace)
    }

    constructor (files: map<string, string>, dirs: set<string>)
      ensures State() == World(Disk(files, dirs), [])
    {
      this.files := files;
      this.dirs := dirs;
      this.trace := [];
    }

    /** Reads a component's source text; the read itself is an effect of its own. */
    method RecordFetch(source: string)
      modifies this
      ensures State() == Fetch(old(State()), source)
    {
      trace := trace + [Fetched(source)];
    }

    method EnsureDir(d: string)
      modifies this
      ensures State() == MakeDirs(old(State()), d)
    {
      dirs := dirs + DirChain(d);
    }

    method WriteFile(p: string, text: string)
      modifies this
      ensures State() == Write(old(State()), p, text)
    {
      files := files[p := text];
      trace := trace + [Wrote(p)];
    }

    method Remove(p: string)
      modifies this
      ensures State() == RemovePath(old(State()), p)
    {
      files := map k | k in files && !Under(k, p) :: files[k];
      dirs := set k | k in dirs && !Under(k, p);
      trace := trace + [Deleted(p)];
    }

    method RmDir(d: string)
      modifies this
      ensures State() == RemoveDir(old(State()), d)
    {
      dirs := dirs - {d};
      trace := trace + [RemovedDir(d)];
    }

    /** Starts the package manager; whether it exits with status 0 is the caller's input. */
    method Exec(call: Invocation)
      modifies this
      ensures State() == Run(old(State()), call)
    {
      trace := trace + [Ran(call)];
    }
  }
}
