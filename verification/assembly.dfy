/** Assembly loading of `assembly.c`: joining search directories and
    file names, the `MONO_PATH` search path read once from the
    environment, the loaded-assembly list searched by name, the corlib
    special case, the search order of `mono_assembly_load`, opening an
    image and loading everything it references, and reference-counted
    closing. The file system and the environment are a `World` value;
    assemblies live in a heap numbered in allocation order. */
module Assembly {
  import opened Bytes

  const DIR_SEPARATOR: char := '/'
  const SEARCHPATH_SEPARATOR: char := ':'

  /** The number of pieces `check_env` lets `g_strsplit` make. */
  const MAX_PATH_PIECES: nat := 1000

  // ---------------------------------------------------------------------
  // Strings and paths
  // ---------------------------------------------------------------------

  /** The first position of `c` in `s`. */
  function IndexOf(s: string, c: char): (r: Option<nat>)
    ensures r.Some? ==> r.value < |s| && s[r.value] == c && c !in s[..r.value]
    ensures r.None? ==> c !in s
  {
    if |s| == 0 then None
    else if s[0] == c then Some(0)
    else match IndexOf(s[1..], c)
      case None => None
      case Some(i) =>
        assert s[..i + 1] == [s[0]] + s[1..][..i];
        Some(i + 1)
  }

  /** The last position of `c` in `s`. */
  function LastIndexOf(s: string, c: char): (r: Option<nat>)
    ensures r.Some? ==> r.value < |s| && s[r.value] == c && c !in s[r.value + 1..]
    ensures r.None? ==> c !in s
  {
    if |s| == 0 then None
    else if s[|s| - 1] == c then Some(|s| - 1)
    else match LastIndexOf(s[..|s| - 1], c)
      case None =>
        assert s == s[..|s| - 1] + [s[|s| - 1]];
        None
      case Some(i) =>
        assert s[i + 1..] == s[..|s| - 1][i + 1..] + [s[|s| - 1]];
        Some(i)
  }

  /** `sub` occurs in `s` at position `i`. */
  predicate SubAt(s: string, sub: string, i: int)
  {
    0 <= i && i + |sub| <= |s| && s[i..i + |sub|] == sub
  }

  /** `strstr (s, sub) != NULL`. */
  predicate Contains(s: string, sub: string)
  {
    exists i :: 0 <= i <= |s| - |sub| && SubAt(s, sub, i)
  }

  /** `g_concat_dir_and_file` as written: a separator is added unless
      `dir` ends with one, found by reading `dir[strlen (dir) - 1]`. For
      an empty `dir` that reads the byte before the string, modelled as
      no result. */
  function ConcatDirAndFileAsWritten(dir: string, file: string): (r: Option<string>)
    ensures r.None? <==> |dir| == 0
  {
    if |dir| == 0 then None
    else if dir[|dir| - 1] != DIR_SEPARATOR then Some(dir + [DIR_SEPARATOR] + file)
    else Some(dir + file)
  }

  /** `g_concat_dir_and_file` as meant: `dir` and `file` with a separator
      between them exactly when `dir` is non-empty and does not already
      end with one; an empty `dir` is the current directory. */
  function ConcatDirAndFile(dir: string, file: string): (r: string)
    ensures |dir| > 0 ==> ConcatDirAndFileAsWritten(dir, file) == Some(r)
    ensures |r| == |dir| + |file| + (if |dir| > 0 && dir[|dir| - 1] != DIR_SEPARATOR then 1 else 0)
    ensures dir <= r && r[|r| - |file|..] == file
    ensures |r| > |dir| + |file| ==> r[|dir|] == DIR_SEPARATOR
  {
    if |dir| > 0 && dir[|dir| - 1] != DIR_SEPARATOR then dir + [DIR_SEPARATOR] + file else dir + file
  }

  /** Back from position `k` over separators, stopping at position 0. */
  function BackOverSeparators(s: string, k: nat): (j: nat)
    requires k < |s|
    ensures j <= k && (j == 0 || s[j] != DIR_SEPARATOR)
    ensures forall i :: j < i <= k ==> s[i] == DIR_SEPARATOR
  {
    if k > 0 && s[k] == DIR_SEPARATOR then BackOverSeparators(s, k - 1) else k
  }

  /** `g_path_get_dirname`: "." for a bare file name, otherwise
      everything before the last separator, without trailing separators,
      keeping a leading one. */
  function Dirname(path: string): (r: string)
    ensures |r| > 0
  {
    match LastIndexOf(path, DIR_SEPARATOR)
    case None => "."
    case Some(k) => path[..BackOverSeparators(path, k) + 1]
  }

  /** An assembly found by joining a directory that does not end with a
      separator and a plain file name records that directory as its base
      directory. */
  lemma DirnameOfJoined(dir: string, file: string)
    requires |dir| > 0 && dir[|dir| - 1] != DIR_SEPARATOR
    requires |file| > 0 && DIR_SEPARATOR !in file
    ensures Dirname(ConcatDirAndFile(dir, file)) == dir
  {
    var p := ConcatDirAndFile(dir, file);
    assert p == dir + [DIR_SEPARATOR] + file;
    forall j | |dir| < j < |p|
      ensures p[j] != DIR_SEPARATOR
    {
      assert p[j] == file[j - |dir| - 1];
    }
    LastIndexOfIs(p, DIR_SEPARATOR, |dir|);
    assert p[|dir| - 1] == dir[|dir| - 1];
    assert BackOverSeparators(p, |dir|) == |dir| - 1;
    assert p[..|dir|] == dir;
  }

  /** The last `c` is at `k` when `s[k]` is one and none follows. */
  lemma {:induction false} LastIndexOfIs(s: string, c: char, k: nat)
    requires k < |s| && s[k] == c && forall j :: k < j < |s| ==> s[j] != c
    ensures LastIndexOf(s, c) == Some(k)
    decreases |s|
  {
    if k < |s| - 1 {
      LastIndexOfIs(s[..|s| - 1], c, k);
    }
  }

  /** An empty entry in `MONO_PATH` ("a::b") reaches the join as an
      empty directory, where the runtime reads before the string. */
  lemma EmptyPathEntryReadsOutside()
    ensures Split("a::b") == ["a", "", "b"]
    ensures ConcatDirAndFileAsWritten(Split("a::b")[1], "x.dll").None?
    ensures ConcatDirAndFile(Split("a::b")[1], "x.dll") == "x.dll"
  {
    assert IndexOf("b", ':') == None;
    assert SplitFrom("b", 998) == ["b"];
    assert IndexOf(":b", ':') == Some(0);
    assert ":b"[1..] == "b" && ":b"[..0] == "";
    assert SplitFrom(":b", 999) == [""] + ["b"];
    assert IndexOf("a::b", ':') == Some(1);
    assert "a::b"[2..] == ":b" && "a::b"[..1] == "a";
    assert SplitFrom("a::b", 1000) == ["a"] + ["", "b"];
  }

  /** The file name `mono_assembly_load` looks for: the name itself when
      it contains ".dll", otherwise the name with ".dll" appended. */
  function FileName(name: string): (r: string)
    ensures Contains(name, ".dll") ==> r == name
    ensures !Contains(name, ".dll") ==> r == name + ".dll"
    ensures Contains(r, ".dll")
  {
    if Contains(name, ".dll") then name
    else
      var r := name + ".dll";
      assert SubAt(r, ".dll", |name|);
      r
  }

  /** Asking for the file name of a file name changes nothing. */
  lemma FileNameIdempotent(name: string)
    ensures FileName(FileName(name)) == FileName(name)
  {
  }

  // ---------------------------------------------------------------------
  // The search path from the environment
  // ---------------------------------------------------------------------

  /** `g_strsplit` of a non-empty string on ':' into at most `max`
      pieces; the last piece keeps the rest, separators included. */
  function SplitFrom(s: string, max: nat): (r: seq<string>)
    requires max >= 1
    ensures 1 <= |r| <= max
    ensures forall i :: 0 <= i < |r| - 1 ==> SEARCHPATH_SEPARATOR !in r[i]
    decreases |s|
  {
    if max == 1 then [s]
    else match IndexOf(s, SEARCHPATH_SEPARATOR)
      case None => [s]
      case Some(i) => [s[..i]] + SplitFrom(s[i + 1..], max - 1)
  }

  /** `g_strsplit (path, ":", 1000)`: no pieces for the empty string. */
  function Split(s: string): (r: seq<string>)
    ensures |r| <= MAX_PATH_PIECES
    ensures forall i :: 0 <= i < |r| - 1 ==> SEARCHPATH_SEPARATOR !in r[i]
  {
    if s == "" then [] else SplitFrom(s, MAX_PATH_PIECES)
  }

  /** The pieces put back together with ':'. */
  function Join(parts: seq<string>): string
  {
    if |parts| == 0 then ""
    else if |parts| == 1 then parts[0]
    else parts[0] + [SEARCHPATH_SEPARATOR] + Join(parts[1..])
  }

  lemma {:induction false} SplitFromJoin(s: string, max: nat)
    requires max >= 1
    ensures Join(SplitFrom(s, max)) == s
    decreases |s|
  {
    var found := IndexOf(s, SEARCHPATH_SEPARATOR);
    if max > 1 && found.Some? {
      var i := found.value;
      var rest := SplitFrom(s[i + 1..], max - 1);
      SplitFromJoin(s[i + 1..], max - 1);
      assert SplitFrom(s, max) == [s[..i]] + rest;
      JoinAtSeparator(s, i, rest);
    }
  }

  /** One piece in front of pieces that join to the rest of `s`. */
  lemma JoinAtSeparator(s: string, i: nat, rest: seq<string>)
    requires i < |s| && |rest| >= 1 && Join(rest) == s[i + 1..]
    requires s[i] == SEARCHPATH_SEPARATOR
    ensures Join([s[..i]] + rest) == s
  {
    assert ([s[..i]] + rest)[1..] == rest;
    assert s == s[..i] + [SEARCHPATH_SEPARATOR] + s[i + 1..];
  }

  /** Splitting loses nothing: the pieces joined give the variable back. */
  lemma SplitJoin(s: string)
    ensures Join(Split(s)) == s
  {
    if s != "" {
      SplitFromJoin(s, MAX_PATH_PIECES);
    }
  }

  // ---------------------------------------------------------------------
  // State
  // ---------------------------------------------------------------------

  /** What an image file holds for the loader: the name in its Assembly
      table and the names in its AssemblyRef table. */
  datatype ImageInfo = ImageInfo(name: string, refs: seq<string>)

  /** The outside world: the image files by path, the value of
      `MONO_PATH`, and the file name corlib is looked up under. */
  datatype World = World(files: map<string, ImageInfo>, monoPath: Option<string>, corlibName: string)

  /** A `MonoAssembly`: its name, base directory, reference count and
      the assemblies its references were loaded as. */
  datatype MonoAssembly = MonoAssembly(name: string, basedir: string, refCount: int, references: seq<nat>)

  datatype Status = StatusOk | ErrorErrno | MissingAssemblyRef

  /** The loader's globals: every assembly allocated (by number), which
      were freed, `loaded_assemblies` (most recent first), `corlib`,
      `env_checked`, `assemblies_path`, the default directory, and the
      last status written. */
  datatype State = State(heap: seq<MonoAssembly>, freed: set<nat>, loaded: seq<nat>, corlib: Option<nat>,
                         envChecked: bool, assembliesPath: Option<seq<string>>, defaultDir: string,
                         status: Status)

  predicate NoDup(s: seq<nat>)
  {
    forall i, j :: 0 <= i < j < |s| ==> s[i] != s[j]
  }

  /** Every assembly mentioned is allocated, and no assembly is listed
      twice as loaded. */
  predicate Valid(st: State)
  {
    NoDup(st.loaded)
    && (forall i :: 0 <= i < |st.loaded| ==> st.loaded[i] < |st.heap|)
    && (st.corlib.Some? ==> st.corlib.value < |st.heap|)
    && (forall a, k :: 0 <= a < |st.heap| && 0 <= k < |st.heap[a].references| ==> st.heap[a].references[k] < |st.heap|)
  }

  /** `after` is valid, has every assembly of `before`, and none of
      them has changed its name or base directory. */
  predicate Grows(before: State, after: State)
  {
    Valid(after) && |before.heap| <= |after.heap|
    && forall a :: 0 <= a < |before.heap| ==>
      after.heap[a].name == before.heap[a].name && after.heap[a].basedir == before.heap[a].basedir
  }

  /** `check_env`: only the first call reads `MONO_PATH`; when it is set
      its pieces become the search path. */
  function CheckEnv(st: State, monoPath: Option<string>): (r: State)
    ensures st.envChecked ==> r == st
    ensures r.envChecked
    ensures !st.envChecked && monoPath.Some? ==> r.assembliesPath == Some(Split(monoPath.value))
    ensures !st.envChecked && monoPath.None? ==> r.assembliesPath == st.assembliesPath
    ensures r.(envChecked := st.envChecked, assembliesPath := st.assembliesPath) == st
  {
    if st.envChecked then st
    else if monoPath.None? then st.(envChecked := true)
    else st.(envChecked := true, assembliesPath := Some(Split(monoPath.value)))
  }

  /** The environment is read once: later values of `MONO_PATH` are
      ignored. */
  lemma EnvReadOnce(st: State, first: Option<string>, later: Option<string>)
    ensures CheckEnv(CheckEnv(st, first), later) == CheckEnv(st, first)
  {
  }

  /** `mono_assembly_setrootdir`: replaces the default directory. */
  function SetRootDir(st: State, dir: string): (r: State)
    ensures r.defaultDir == dir && r.(defaultDir := st.defaultDir) == st
  {
    st.(defaultDir := dir)
  }

  /** `search_loaded`: the first loaded assembly, most recent first,
      whose name equals `name`. */
  function SearchLoaded(st: State, name: string): (r: Option<nat>)
    requires Valid(st)
    ensures r.Some? <==> exists i :: 0 <= i < |st.loaded| && st.heap[st.loaded[i]].name == name
    ensures r.Some? ==> r.value < |st.heap| && st.heap[r.value].name == name
    ensures r.Some? ==> exists i :: (0 <= i < |st.loaded| && st.loaded[i] == r.value
      && forall j :: 0 <= j < i ==> st.heap[st.loaded[j]].name != name)
  {
    FirstNamed(st.heap, st.loaded, name)
  }

  function FirstNamed(heap: seq<MonoAssembly>, ids: seq<nat>, name: string): (r: Option<nat>)
    requires forall i :: 0 <= i < |ids| ==> ids[i] < |heap|
    ensures r.Some? <==> exists i :: 0 <= i < |ids| && heap[ids[i]].name == name
    ensures r.Some? ==> r.value < |heap| && heap[r.value].name == name
    ensures r.Some? ==> exists i :: (0 <= i < |ids| && ids[i] == r.value
      && forall j :: 0 <= j < i ==> heap[ids[j]].name != name)
  {
    if |ids| == 0 then None
    else if heap[ids[0]].name == name then Some(ids[0])
    else
      var r := FirstNamed(heap, ids[1..], name);
      if r.Some? then
        var i :| 0 <= i < |ids[1..]| && ids[1..][i] == r.value
          && forall j :: 0 <= j < i ==> heap[ids[1..][j]].name != name;
        assert ids[i + 1] == r.value;
        r
      else
        assert forall i :: 1 <= i < |ids| ==> ids[i] == ids[1..][i - 1];
        r
  }

  /** `g_list_remove`: drops the first occurrence of `x`. */
  function RemoveFirst(s: seq<nat>, x: nat): (r: seq<nat>)
    ensures forall y :: y in r ==> y in s
    ensures NoDup(s) ==> NoDup(r) && x !in r && forall y :: y in s && y != x ==> y in r
    ensures |r| <= |s|
  {
    if |s| == 0 then []
    else if s[0] == x then
      assert forall y :: y in s[1..] ==> y in s;
      assert NoDup(s) ==> x !in s[1..];
      s[1..]
    else
      var t := RemoveFirst(s[1..], x);
      assert NoDup(s) ==> NoDup(s[1..]);
      assert NoDup(s) ==> s[0] !in s[1..];
      [s[0]] + t
  }

  // ---------------------------------------------------------------------
  // Closing
  // ---------------------------------------------------------------------

  /** `mono_assembly_close`: the reference count goes down by one; only
      when it reaches 0 is the assembly taken off the loaded list and
      freed. */
  function Close(st: State, id: nat): (r: State)
    requires Valid(st) && id < |st.heap|
    ensures Valid(r) && |r.heap| == |st.heap| && Grows(st, r)
    ensures r.heap[id].refCount == st.heap[id].refCount - 1
    ensures forall a :: 0 <= a < |st.heap| && a != id ==> r.heap[a] == st.heap[a]
    ensures r.heap[id].(refCount := st.heap[id].refCount) == st.heap[id]
    ensures st.heap[id].refCount != 1 ==> r.loaded == st.loaded && r.freed == st.freed
    ensures st.heap[id].refCount == 1 ==> r.freed == st.freed + {id} && id !in r.loaded
    ensures st.heap[id].refCount == 1 ==> forall y :: y in st.loaded && y != id ==> y in r.loaded
    ensures r.corlib == st.corlib && r.envChecked == st.envChecked && r.assembliesPath == st.assembliesPath
    ensures r.status == st.status && r.defaultDir == st.defaultDir
  {
    var a := st.heap[id];
    var heap := st.heap[id := a.(refCount := a.refCount - 1)];
    if a.refCount - 1 != 0 then st.(heap := heap)
    else
      var r := st.(heap := heap, loaded := RemoveFirst(st.loaded, id), freed := st.freed + {id});
      assert forall i :: 0 <= i < |r.loaded| ==> r.loaded[i] in st.loaded;
      r
  }

  /** Closing each assembly of `ids` in turn. */
  function CloseAll(st: State, ids: seq<nat>): (r: State)
    requires Valid(st) && forall i :: 0 <= i < |ids| ==> ids[i] < |st.heap|
    ensures Valid(r) && |r.heap| == |st.heap| && Grows(st, r)
    ensures r.corlib == st.corlib && r.envChecked == st.envChecked && r.assembliesPath == st.assembliesPath
    ensures r.status == st.status && r.defaultDir == st.defaultDir
    decreases |ids|
  {
    if |ids| == 0 then st else CloseAll(Close(st, ids[0]), ids[1..])
  }

  /** An assembly `mono_assembly_open` creates starts with a reference
      count of 0 and nothing in this file raises it, so closing it drops
      the count to -1 and never frees it. */
  lemma CloseNeverFreesOpened(st: State, id: nat)
    requires Valid(st) && id < |st.heap| && st.heap[id].refCount <= 0
    ensures Close(st, id).freed == st.freed && Close(st, id).loaded == st.loaded
    ensures Close(st, id).heap[id].refCount < 0
  {
  }

  // ---------------------------------------------------------------------
  // Opening and loading
  // ---------------------------------------------------------------------

  /** The outcome of a loading step: the new state and its result, or
      the recursion bound exhausted. */
  datatype Run<T> = Done(st: State, value: T) | OutOfFuel

  /** `mono_assembly_open`. A path with no image fails with an errno
      status. An image whose assembly name is already loaded gives that
      assembly. Otherwise the image is opened as a new assembly. */
  function Open(w: World, st: State, filename: string, fuel: nat): (r: Run<Option<nat>>)
    requires Valid(st)
    ensures r.Done? ==> Grows(st, r.st)
    ensures r.Done? && r.value.Some? ==> r.value.value < |r.st.heap|
    ensures filename !in w.files ==> r == Done(st.(status := ErrorErrno), None)
    ensures r.Done? && r.value.Some? ==> filename in w.files && r.st.heap[r.value.value].name == w.files[filename].name
    ensures filename in w.files && SearchLoaded(st, w.files[filename].name).Some? ==>
      r == Done(st.(status := StatusOk), SearchLoaded(st, w.files[filename].name))
    ensures filename in w.files && SearchLoaded(st, w.files[filename].name).None? && r.Done? && r.value.None? ==>
      r.st.status == MissingAssemblyRef && |st.heap| !in r.st.loaded && |st.heap| in r.st.freed
    ensures filename in w.files && SearchLoaded(st, w.files[filename].name).None? && r.Done? && r.value.Some? ==>
      r.value.value == |st.heap| && |r.st.heap[|st.heap|].references| == |w.files[filename].refs|
      && r.st.heap[|st.heap|].basedir == Dirname(filename)
    decreases fuel, 1, 0
  {
    if filename !in w.files then Done(st.(status := ErrorErrno), None)
    else
      var found := SearchLoaded(st, w.files[filename].name);
      if found.Some? then Done(st.(status := StatusOk), found)
      else OpenNew(w, st, w.files[filename], Dirname(filename), fuel)
  }

  /** The new assembly is registered at once, then each reference is
      loaded from the image's directory; if one cannot be, the references
      loaded so far are closed, the new assembly is taken off the loaded
      list and freed, and the status says a reference is missing. */
  function OpenNew(w: World, st: State, image: ImageInfo, basedir: string, fuel: nat): (r: Run<Option<nat>>)
    requires Valid(st)
    ensures r.Done? ==> Grows(st, r.st)
    ensures r.Done? && r.value.Some? ==> r.value.value == |st.heap| < |r.st.heap|
    ensures r.Done? && r.value.Some? ==> |r.st.heap[|st.heap|].references| == |image.refs|
    ensures r.Done? && r.value.Some? ==> r.st.heap[|st.heap|].name == image.name
    ensures r.Done? && r.value.Some? ==> r.st.heap[|st.heap|].basedir == basedir
    ensures r.Done? && r.value.None? ==> r.st.status == MissingAssemblyRef
    ensures r.Done? && r.value.None? ==> |st.heap| !in r.st.loaded && |st.heap| in r.st.freed
    decreases fuel, 0, 0
  {
    if fuel == 0 then OutOfFuel
    else
      var st1 := Register(st, image.name, basedir);
      match LoadRefs(w, st1, image.refs, basedir, [], fuel - 1)
      case OutOfFuel => OutOfFuel
      case Done(st2, RefsLoaded(refs, ok)) =>
        if ok then Done(Commit(st1, st2, |st.heap|, refs), Some(|st.heap|))
        else Done(Abandon(st2, |st.heap|, refs), None)
  }

  /** A new assembly allocated and put at the head of the loaded list. */
  function Register(st: State, name: string, basedir: string): (r: State)
    requires Valid(st)
    ensures Grows(st, r) && |r.heap| == |st.heap| + 1
    ensures r.heap[|st.heap|] == MonoAssembly(name, basedir, 0, []) && r.status == StatusOk
  {
    var id := |st.heap|;
    var r := st.(heap := st.heap + [MonoAssembly(name, basedir, 0, [])], loaded := [id] + st.loaded, status := StatusOk);
    assert forall i :: 0 <= i < |st.loaded| ==> st.loaded[i] < id;
    assert forall i :: 1 <= i < |r.loaded| ==> r.loaded[i] == st.loaded[i - 1];
    r
  }

  /** Every reference loaded: the assembly records them. */
  function Commit(st1: State, st2: State, id: nat, refs: seq<nat>): (r: State)
    requires Grows(st1, st2) && id < |st1.heap|
    requires forall i :: 0 <= i < |refs| ==> refs[i] < |st2.heap|
    ensures Grows(st1, r) && Grows(st2, r) && |r.heap| == |st2.heap|
    ensures r.heap[id].references == refs
  {
    var a := st2.heap[id];
    st2.(heap := st2.heap[id := a.(references := refs)])
  }

  /** A reference missing: undo the registration. */
  function Abandon(st2: State, id: nat, refs: seq<nat>): (r: State)
    requires Valid(st2) && forall i :: 0 <= i < |refs| ==> refs[i] < |st2.heap|
    ensures Grows(st2, r) && |r.heap| == |st2.heap|
    ensures r.status == MissingAssemblyRef && id !in r.loaded && id in r.freed
  {
    var st3 := CloseAll(st2, refs);
    var st4 := st3.(status := MissingAssemblyRef, loaded := RemoveFirst(st3.loaded, id), freed := st3.freed + {id});
    assert forall i :: 0 <= i < |st4.loaded| ==> st4.loaded[i] in st3.loaded;
    st4
  }

  /** The assemblies the reference loop loaded, and whether all were. */
  datatype RefsLoaded = RefsLoaded(ids: seq<nat>, complete: bool)

  /** The loop over the AssemblyRef rows: each reference is loaded in
      turn, and the loop stops at the first that cannot be. */
  function LoadRefs(w: World, st: State, names: seq<string>, basedir: string, done: seq<nat>, fuel: nat): (r: Run<RefsLoaded>)
    requires Valid(st) && forall i :: 0 <= i < |done| ==> done[i] < |st.heap|
    ensures r.Done? ==> Grows(st, r.st)
    ensures r.Done? ==> forall i :: 0 <= i < |r.value.ids| ==> r.value.ids[i] < |r.st.heap|
    ensures r.Done? && r.value.complete ==> |r.value.ids| == |done| + |names|
    decreases fuel, 5, |names|
  {
    if |names| == 0 then Done(st, RefsLoaded(done, true))
    else
      match Load(w, st, names[0], Some(basedir), fuel)
      case OutOfFuel => OutOfFuel
      case Done(st1, None) => Done(st1, RefsLoaded(done, false))
      case Done(st1, Some(a)) => LoadRefs(w, st1, names[1..], basedir, done + [a], fuel)
  }

  /** `load_in_path`: the first directory of `dirs` where opening
      `basename` succeeds. */
  function LoadInPath(w: World, st: State, basename: string, dirs: seq<string>, fuel: nat): (r: Run<Option<nat>>)
    requires Valid(st)
    ensures r.Done? ==> Grows(st, r.st)
    ensures r.Done? && r.value.Some? ==> r.value.value < |r.st.heap|
    ensures |dirs| == 0 ==> r == Done(st, None)
    decreases fuel, 2, |dirs|
  {
    if |dirs| == 0 then Done(st, None)
    else
      match Open(w, st, ConcatDirAndFile(dirs[0], basename), fuel)
      case OutOfFuel => OutOfFuel
      case Done(st1, Some(a)) => Done(st1, Some(a))
      case Done(st1, None) => LoadInPath(w, st1, basename, dirs[1..], fuel)
  }

  /** Whether `name` is one of the two names corlib goes by. */
  predicate IsCorlibName(name: string)
  {
    name == "mscorlib" || name == "corlib"
  }

  /** `mono_assembly_load`. After `check_env`, corlib is special: the
      cached corlib if there is one, else the corlib file from the search
      path and then the default directory. Any other name is first looked
      for among the loaded assemblies, then as a file in `basedir`, then
      in each search path directory, then in the default directory; the
      first success wins. */
  function Load(w: World, st: State, name: string, basedir: Option<string>, fuel: nat): (r: Run<Option<nat>>)
    requires Valid(st)
    ensures r.Done? ==> Grows(st, r.st)
    ensures r.Done? && r.value.Some? ==> r.value.value < |r.st.heap|
    decreases fuel, 4, 0
  {
    var st0 := CheckEnv(st, w.monoPath);
    if IsCorlibName(name) then
      if st0.corlib.Some? then Done(st0, st0.corlib)
      else
        match LoadCorlibFromPath(w, st0, fuel)
        case OutOfFuel => OutOfFuel
        case Done(st1, Some(c)) => Done(st1.(corlib := Some(c)), Some(c))
        case Done(st1, None) =>
          match LoadInPath(w, st1, w.corlibName, [st1.defaultDir], fuel)
          case OutOfFuel => OutOfFuel
          case Done(st2, c) => Done(st2.(corlib := c), c)
    else
      var cached := SearchLoaded(st0, name);
      if cached.Some? then Done(st0, cached)
      else
        var filename := FileName(name);
        match LoadFromBasedir(w, st0, filename, basedir, fuel)
        case OutOfFuel => OutOfFuel
        case Done(st1, Some(a)) => Done(st1, Some(a))
        case Done(st1, None) =>
          match LoadFromSearchPath(w, st1, filename, fuel)
          case OutOfFuel => OutOfFuel
          case Done(st2, Some(a)) => Done(st2, Some(a))
          case Done(st2, None) => LoadInPath(w, st2, filename, [st2.defaultDir], fuel)
  }

  /** The corlib file from the search path, when there is one. */
  function LoadCorlibFromPath(w: World, st: State, fuel: nat): (r: Run<Option<nat>>)
    requires Valid(st)
    ensures r.Done? ==> Grows(st, r.st)
    ensures r.Done? && r.value.Some? ==> r.value.value < |r.st.heap|
    ensures st.assembliesPath.None? ==> r == Done(st, None)
    decreases fuel, 3, 0
  {
    if st.assembliesPath.None? then Done(st, None)
    else LoadInPath(w, st, w.corlibName, st.assembliesPath.value, fuel)
  }

  /** The file in the caller's base directory, when one is given. */
  function LoadFromBasedir(w: World, st: State, filename: string, basedir: Option<string>, fuel: nat): (r: Run<Option<nat>>)
    requires Valid(st)
    ensures r.Done? ==> Grows(st, r.st)
    ensures r.Done? && r.value.Some? ==> r.value.value < |r.st.heap|
    ensures basedir.None? ==> r == Done(st, None)
    decreases fuel, 3, 0
  {
    if basedir.None? then Done(st, None)
    else Open(w, st, ConcatDirAndFile(basedir.value, filename), fuel)
  }

  /** The file in the search path directories, when there are any. */
  function LoadFromSearchPath(w: World, st: State, filename: string, fuel: nat): (r: Run<Option<nat>>)
    requires Valid(st)
    ensures r.Done? ==> Grows(st, r.st)
    ensures r.Done? && r.value.Some? ==> r.value.value < |r.st.heap|
    ensures st.assembliesPath.None? ==> r == Done(st, None)
    decreases fuel, 3, 0
  {
    if st.assembliesPath.None? then Done(st, None)
    else LoadInPath(w, st, filename, st.assembliesPath.value, fuel)
  }

  // ---------------------------------------------------------------------
  // Properties of loading
  // ---------------------------------------------------------------------

  /** Corlib, once loaded, is what either of its names gives, without
      opening anything. */
  lemma CorlibCached(w: World, st: State, name: string, basedir: Option<string>, fuel: nat)
    requires Valid(st) && IsCorlibName(name) && st.corlib.Some?
    ensures Load(w, st, name, basedir, fuel) == Done(CheckEnv(st, w.monoPath), st.corlib)
  {
  }

  /** A name already loaded (other than corlib's) is found in the list
      before any directory is searched. */
  lemma LoadFindsLoaded(w: World, st: State, name: string, basedir: Option<string>, fuel: nat)
    requires Valid(st) && !IsCorlibName(name)
    requires SearchLoaded(st, name).Some?
    ensures Load(w, st, name, basedir, fuel) == Done(CheckEnv(st, w.monoPath), SearchLoaded(st, name))
  {
    assert CheckEnv(st, w.monoPath).loaded == st.loaded && CheckEnv(st, w.monoPath).heap == st.heap;
  }

  /** The base directory is tried first: when the file there opens, its
      assembly is the answer and the search path is never looked at. */
  lemma LoadPrefersBasedir(w: World, st: State, name: string, dir: string, fuel: nat)
    requires Valid(st) && !IsCorlibName(name)
    requires SearchLoaded(st, name).None?
    requires var st0 := CheckEnv(st, w.monoPath);
      var o := Open(w, st0, ConcatDirAndFile(dir, FileName(name)), fuel);
      o.Done? && o.value.Some?
    ensures Load(w, st, name, Some(dir), fuel) == Open(w, CheckEnv(st, w.monoPath), ConcatDirAndFile(dir, FileName(name)), fuel)
  {
    assert CheckEnv(st, w.monoPath).loaded == st.loaded && CheckEnv(st, w.monoPath).heap == st.heap;
  }

  /** Directories are tried in order and the first that opens wins: a
      directory is reached only when every one before it failed. */
  lemma LoadInPathFirstWins(w: World, st: State, basename: string, dirs: seq<string>, fuel: nat)
    requires Valid(st) && |dirs| > 0
    ensures var o := Open(w, st, ConcatDirAndFile(dirs[0], basename), fuel);
      o.Done? && o.value.Some? ==> LoadInPath(w, st, basename, dirs, fuel) == o
    ensures var o := Open(w, st, ConcatDirAndFile(dirs[0], basename), fuel);
      o.Done? && o.value.None? ==> LoadInPath(w, st, basename, dirs, fuel) == LoadInPath(w, o.st, basename, dirs[1..], fuel)
  {
  }
}
