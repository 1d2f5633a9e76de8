/** moduleLoader: run-once loading of scripts with cycle detection.

    A file maps to nothing while it is executing and to its globals when it is done;
    here to false and to true.  The theorem is that loading succeeds exactly when
    everything reachable from the entry script can be run and no file leads back to
    itself. */
module ScriptLoader {
  import opened Text
  import Sets

  /** A script is the list of names it loads, and whether it runs apart from them. */
  datatype Script = Script(loads: seq<string>, runs: bool)

  type Files = map<string, Script>

  // ----- names -----

  predicate ValidElement(e: string) { e != "" && e != "." && e != ".." }

  /** fs.ValidPath */
  predicate ValidPath(name: string) {
    name == "." || forall i :: 0 <= i < |SplitOn(name, '/')| ==> ValidElement(SplitOn(name, '/')[i])
  }

  /** path.Ext(name) == ".star" */
  predicate IsStar(name: string) { |name| >= 5 && name[|name| - 5..] == ".star" }

  /** The names that load accepts. */
  predicate ValidName(dir: string, name: string) {
    dir != "" && ValidPath(name) && '\\' !in name && IsStar(name)
  }

  /** path.Join(dir, name) of valid paths. */
  function Located(dir: string, name: string): string {
    if dir == "." then name else dir + "/" + name
  }

  /** A path by its elements: none is empty or a dot, and no character separates. */
  ghost predicate Elements(es: seq<string>) {
    es != [] && forall i :: 0 <= i < |es| ==> es[i] != "" && es[i] != "." && es[i] != ".." && '/' !in es[i] && '\\' !in es[i]
  }

  /** The names that are accepted: elements with slashes between them, of which the last
      ends in `.star`. */
  lemma NamesAccepted(dir: string, name: string)
    ensures ValidName(dir, name) <==>
      dir != "" && exists es :: Elements(es) && name == Join(es, "/") && |es[|es| - 1]| >= 5 && es[|es| - 1][|es[|es| - 1]| - 5..] == ".star"
  {
    hide SplitOn, Join, IsStar;
    SplitBack(name, '/');
    if ValidName(dir, name) {
      var es := SplitOn(name, '/');
      DotIsNoStar(name);
      ElementsApart(es, name);
      StarLast(es, name);
      StarIs(es[|es| - 1]);
      assert Elements(es);
    }
    if es :| Elements(es) && name == Join(es, "/") && |es[|es| - 1]| >= 5 && es[|es| - 1][|es[|es| - 1]| - 5..] == ".star" {
      JoinBack(es, '/');
      JoinedPlain(es);
      StarLast(es, name);
      StarIs(es[|es| - 1]);
    }
  }

  lemma DotIsNoStar(name: string)
    ensures IsStar(name) ==> name != "."
  {
  }

  lemma StarIs(t: string)
    ensures IsStar(t) <==> |t| >= 5 && t[|t| - 5..] == ".star"
  {
  }

  /** What every element is free of, the whole is free of. */
  lemma {:induction false} JoinedPlain(es: seq<string>)
    requires es != [] && forall i :: 0 <= i < |es| ==> '\\' !in es[i]
    ensures '\\' !in Join(es, "/")
    decreases |es|
  {
    if |es| > 1 { JoinedPlain(es[1..]); }
  }

  lemma {:induction false} ElementsApart(es: seq<string>, name: string)
    requires es != [] && name == Join(es, "/") && '\\' !in name
    ensures forall i :: 0 <= i < |es| ==> '\\' !in es[i]
    decreases |es|
  {
    if |es| > 1 {
      var rest := Join(es[1..], "/");
      assert name == es[0] + "/" + rest;
      assert forall k :: 0 <= k < |rest| ==> rest[k] == name[|es[0]| + 1 + k];
      ElementsApart(es[1..], rest);
      assert forall i :: 0 < i < |es| ==> es[i] == es[1..][i - 1];
      assert forall k :: 0 <= k < |es[0]| ==> es[0][k] == name[k];
    }
  }

  /** The name ends as its last element does. */
  lemma {:induction false} StarLast(es: seq<string>, name: string)
    requires es != [] && name == Join(es, "/")
    ensures IsStar(name) <==> IsStar(es[|es| - 1])
    decreases |es|
  {
    if |es| > 1 {
      var rest := Join(es[1..], "/");
      StarLast(es[1..], rest);
      StarBehind(es[0], rest);
    }
  }

  lemma StarBehind(head: string, rest: string)
    ensures IsStar(head + "/" + rest) <==> IsStar(rest)
  {
    var s := head + "/" + rest;
    if |rest| >= 5 {
      assert s[|s| - 5..] == rest[|rest| - 5..];
    } else if |s| >= 5 {
      assert s[|s| - 5..][4 - |rest|] == '/';
      assert '/' !in ".star";
    }
  }

  /** A name is looked up below the directory. */
  lemma LocatedBelow(dir: seq<string>, name: seq<string>)
    requires name != []
    ensures Located(".", Join(name, "/")) == Join(name, "/")
    ensures dir != [] && Join(dir, "/") != "." ==> Located(Join(dir, "/"), Join(name, "/")) == Join(dir + name, "/")
  {
    if dir != [] { JoinConcat(dir, name); }
  }

  lemma {:induction false} JoinConcat(a: seq<string>, b: seq<string>)
    requires a != [] && b != []
    ensures Join(a + b, "/") == Join(a, "/") + "/" + Join(b, "/")
    decreases |a|
  {
    assert (a + b)[1..] == a[1..] + b;
    if |a| > 1 {
      JoinConcat(a[1..], b);
    } else {
      assert a[1..] + b == b;
    }
  }

  // ----- the load graph -----

  function Deps(fs: Files, dir: string, f: string): set<string> {
    if f in fs then set n | n in fs[f].loads :: Located(dir, n) else {}
  }

  /** The file is there, its load names are valid, and it runs. */
  predicate Fine(fs: Files, dir: string, f: string) {
    f in fs && fs[f].runs && forall n :: n in fs[f].loads ==> ValidName(dir, n)
  }

  /** Each file loads the next. */
  predicate IsPath(fs: Files, dir: string, p: seq<string>) {
    forall i :: 0 <= i < |p| - 1 ==> p[i + 1] in Deps(fs, dir, p[i])
  }

  /** A path from the entry script leads to a file that cannot be run, or back to a
      file on the path. */
  ghost predicate Trouble(fs: Files, dir: string, entry: string) {
    exists p :: |p| > 0 && IsPath(fs, dir, p) && p[0] == entry && (!Fine(fs, dir, p[|p| - 1]) || p[|p| - 1] in p[..|p| - 1])
  }

  function Universe(fs: Files, dir: string): set<string> {
    fs.Keys + set f, n | f in fs && n in fs[f].loads :: Located(dir, n)
  }

  // ----- the invariant -----

  /** The finished files can be run, and load files that finished before them. */
  ghost predicate Settled(fs: Files, dir: string, finished: seq<string>) {
    forall i :: 0 <= i < |finished| ==> Fine(fs, dir, finished[i]) && forall d :: d in Deps(fs, dir, finished[i]) ==> d in finished[..i]
  }

  ghost predicate Consistent(fs: Files, dir: string, loaded: map<string, bool>, finished: seq<string>) {
    && (forall f :: f in finished <==> f in loaded && loaded[f])
    && Settled(fs, dir, finished)
  }

  /** The files that are executing are those of the path from the entry. */
  ghost predicate Executing(fs: Files, dir: string, entry: string, loaded: map<string, bool>, path: seq<string>) {
    && |path| > 0 && path[0] == entry && IsPath(fs, dir, path)
    && forall f :: f in path <==> f in loaded && !loaded[f]
  }

  ghost predicate NoRepeat(started: seq<string>) {
    forall i, j :: 0 <= i < j < |started| ==> started[i] != started[j]
  }

  /** Nothing was started twice, and everything started is marked. */
  ghost predicate Once(started: seq<string>, loaded: map<string, bool>) {
    NoRepeat(started) && forall f :: f in started ==> f in loaded
  }

  /** Everything finished was started. */
  ghost predicate Ran(finished: seq<string>, started: seq<string>) {
    forall f :: f in finished ==> f in started
  }

  lemma OnceGrows(started: seq<string>, loaded: map<string, bool>, f: string, done: bool)
    requires Once(started, loaded)
    ensures Once(started, loaded[f := done]) && NoRepeat(started)
  {
  }

  lemma PathSnoc(fs: Files, dir: string, path: seq<string>, f: string)
    requires IsPath(fs, dir, path) && |path| > 0 && f in Deps(fs, dir, path[|path| - 1])
    ensures IsPath(fs, dir, path + [f])
  {
  }

  lemma PathInit(fs: Files, dir: string, path: seq<string>, f: string)
    requires IsPath(fs, dir, path + [f])
    ensures IsPath(fs, dir, path)
  {
    hide Deps;
    forall i | 0 <= i < |path| - 1
      ensures path[i + 1] in Deps(fs, dir, path[i])
    {
      assert (path + [f])[i + 1] in Deps(fs, dir, (path + [f])[i]);
    }
  }

  lemma CycleFound(fs: Files, dir: string, entry: string, loaded: map<string, bool>, path: seq<string>, f: string)
    requires Executing(fs, dir, entry, loaded, path) && f in loaded && !loaded[f] && f in Deps(fs, dir, path[|path| - 1])
    ensures Trouble(fs, dir, entry)
  {
    hide Deps, Fine;
    PathSnoc(fs, dir, path, f);
    var p := path + [f];
    assert p[..|p| - 1] == path;
    assert p[0] == entry && p[|p| - 1] in p[..|p| - 1];
  }

  lemma FaultFound(fs: Files, dir: string, entry: string, loaded: map<string, bool>, path: seq<string>)
    requires Executing(fs, dir, entry, loaded, path) && !Fine(fs, dir, path[|path| - 1])
    ensures Trouble(fs, dir, entry)
  {
  }

  lemma Start(fs: Files, dir: string, entry: string, loaded: map<string, bool>, finished: seq<string>, path: seq<string>, f: string)
    requires Consistent(fs, dir, loaded, finished) && Executing(fs, dir, entry, loaded, path)
    requires f in Deps(fs, dir, path[|path| - 1]) && f !in loaded
    ensures Consistent(fs, dir, loaded[f := false], finished) && Executing(fs, dir, entry, loaded[f := false], path + [f])
  {
    hide Deps, Settled, Universe;
    PathSnoc(fs, dir, path, f);
    assert forall g :: g in path + [f] <==> g in path || g == f;
  }

  lemma Finish(fs: Files, dir: string, entry: string, loaded: map<string, bool>, finished: seq<string>, path: seq<string>, f: string)
    requires Consistent(fs, dir, loaded, finished) && Executing(fs, dir, entry, loaded, path + [f]) && |path| > 0 && f !in path
    requires Fine(fs, dir, f) && forall d :: d in Deps(fs, dir, f) ==> d in finished
    ensures Consistent(fs, dir, loaded[f := true], finished + [f]) && Executing(fs, dir, entry, loaded[f := true], path)
  {
    hide Deps, Universe, Fine;
    var p, g := path + [f], finished + [f];
    PathInit(fs, dir, path, f);
    assert p[0] == path[0];
    assert forall h :: h in p <==> h in path || h == f;
    assert forall h :: h in g <==> h in finished || h == f;
    forall i | 0 <= i < |g|
      ensures Fine(fs, dir, g[i]) && forall d :: d in Deps(fs, dir, g[i]) ==> d in g[..i]
    {
      if i < |finished| { assert g[i] == finished[i] && g[..i] == finished[..i]; } else { assert g[..i] == finished; }
    }
  }

  class ModuleLoader {
    const fs: Files
    const dir: string
    ghost const entry: string
    var loaded: map<string, bool>
    /** The libraries that finished, in order. */
    ghost var finished: seq<string>
    /** Everything whose execution was started. */
    ghost var started: seq<string>

    ghost predicate Valid()
      reads this
    {
      Consistent(fs, dir, loaded, finished) && Once(started, loaded) && Ran(finished, started)
    }

    ghost predicate Running(path: seq<string>)
      reads this
    {
      Executing(fs, dir, entry, loaded, path)
    }

    /** A loader on which the entry file alone is in progress: it is marked as not
        finished before it starts. */
    constructor (files: Files, loadDir: string, file: string)
      ensures Valid() && Running([file]) && fs == files && dir == loadDir && entry == file && started == [] && finished == []
      ensures loaded == map[file := false]
    {
      fs, dir, entry := files, loadDir, file;
      loaded := map[file := false];
      finished, started := [], [];
    }

    /** execute: the loads of the script run in order. */
    method Execute(file: string, ghost path: seq<string>) returns (ok: bool)
      requires Valid() && Running(path) && path[|path| - 1] == file && file !in started
      modifies this
      ensures old(loaded).Keys <= loaded.Keys && NoRepeat(started)
      ensures ok ==> Valid() && Running(path) && old(finished) <= finished
      ensures old(started) <= started && (ok ==> file in started)
      ensures ok ==> Fine(fs, dir, file) && forall d :: d in Deps(fs, dir, file) ==> d in finished
      ensures !ok ==> Trouble(fs, dir, entry)
      decreases |Universe(fs, dir) - loaded.Keys|, 1
    {
      hide Consistent, Executing, Trouble, Universe, IsPath, ValidName;
      if file !in fs {
        FaultFound(fs, dir, entry, loaded, path);
        return false;
      }
      RunningLoaded(path);
      started := started + [file];
      var loads := fs[file].loads;
      var i := 0;
      while i < |loads|
        invariant i <= |loads| && Valid() && Running(path) && old(finished) <= finished && old(loaded).Keys <= loaded.Keys
        invariant old(started) <= started && file in started
        invariant forall j :: 0 <= j < i ==> ValidName(dir, loads[j]) && Located(dir, loads[j]) in finished
      {
        Sets.Shrinks(Universe(fs, dir), old(loaded).Keys, loaded.Keys);
        ok := Load(loads[i], path);
        if !ok { return; }
        i := i + 1;
      }
      if !fs[file].runs {
        FaultFound(fs, dir, entry, loaded, path);
        return false;
      }
      return true;
    }

    /** load: a file that was seen is either done, or closes a cycle. */
    method Load(name: string, ghost path: seq<string>) returns (ok: bool)
      requires Valid() && Running(path) && path[|path| - 1] in fs && name in fs[path[|path| - 1]].loads
      modifies this
      ensures old(loaded).Keys <= loaded.Keys && NoRepeat(started)
      ensures ok ==> Valid() && Running(path) && old(finished) <= finished
      ensures old(started) <= started
      ensures ok ==> ValidName(dir, name) && Located(dir, name) in finished
      ensures !ok ==> Trouble(fs, dir, entry)
      decreases |Universe(fs, dir) - loaded.Keys|, 0
    {
      hide Consistent, Executing, Trouble, Universe, IsPath, ValidName, Located, Deps, NoRepeat, Fine, Once;
      OnceGrows(started, loaded, name, false);
      if !ValidName(dir, name) {
        BadName(path, name);
        return false;
      }
      var file := Located(dir, name);
      LoadedMarks(path, file, name);
      if file in loaded {
        if !loaded[file] {
          CycleFound(fs, dir, entry, loaded, path, file);
          return false;
        }
        return true;
      }
      Sets.Marked(Universe(fs, dir), loaded.Keys, file);
      Start(fs, dir, entry, loaded, finished, path, file);
      OnceGrows(started, loaded, file, false);
      assert loaded[file := false].Keys == loaded.Keys + {file};
      loaded := loaded[file := false];
      assert (path + [file])[|path + [file]| - 1] == file;
      ok := Execute(file, path + [file]);
      if !ok { return; }
      Finish(fs, dir, entry, loaded, finished, path, file);
      OnceGrows(started, loaded, file, true);
      loaded := loaded[file := true];
      finished := finished + [file];
    }

    lemma RunningLoaded(path: seq<string>)
      requires Running(path)
      ensures |path| > 0 && path[|path| - 1] in loaded
    {
    }

    lemma BadName(path: seq<string>, name: string)
      requires Running(path) && path[|path| - 1] in fs && name in fs[path[|path| - 1]].loads && !ValidName(dir, name)
      ensures Trouble(fs, dir, entry)
    {
    }

    /** What the marks say about the file that is to be loaded. */
    lemma LoadedMarks(path: seq<string>, file: string, name: string)
      requires Valid() && Running(path) && path[|path| - 1] in fs && name in fs[path[|path| - 1]].loads && file == Located(dir, name)
      ensures file in Deps(fs, dir, path[|path| - 1]) && file in Universe(fs, dir)
      ensures file in loaded && loaded[file] ==> file in finished
      ensures file !in loaded ==> |path| > 0 && file !in path && file !in started
    {
    }
  }

  // ----- the theorem -----

  /** Without trouble: the place of a file in the order of finishing. */
  function Place(finished: seq<string>, f: string): (i: nat)
    ensures f in finished ==> i < |finished| && finished[i] == f && forall j :: 0 <= j < i ==> finished[j] != f
    ensures f !in finished ==> i == |finished|
  {
    if finished == [] then 0 else if finished[0] == f then 0 else 1 + Place(finished[1..], f)
  }

  /** Along a path files finish earlier and earlier. */
  lemma {:induction false} PathPlaces(fs: Files, dir: string, entry: string, finished: seq<string>, p: seq<string>, i: nat)
    requires Settled(fs, dir, finished) && entry !in finished && Fine(fs, dir, entry) && forall d :: d in Deps(fs, dir, entry) ==> d in finished
    requires |p| > 0 && IsPath(fs, dir, p) && p[0] == entry && i < |p|
    ensures p[i] == entry || p[i] in finished
    ensures forall j :: 0 <= j < i ==> Place(finished, p[i]) < Place(finished, p[j])
    decreases i
  {
    hide Deps, Fine;
    if i > 0 {
      PathPlaces(fs, dir, entry, finished, p, i - 1);
      assert p[i - 1 + 1] in Deps(fs, dir, p[i - 1]);
      if p[i - 1] in finished {
        var k := Place(finished, p[i - 1]);
        assert p[i] in finished[..k];
        var m :| 0 <= m < k && finished[m] == p[i];
        assert Place(finished, p[i]) <= m;
      }
    }
  }

  lemma NoTrouble(fs: Files, dir: string, entry: string, finished: seq<string>)
    requires Settled(fs, dir, finished) && entry !in finished && Fine(fs, dir, entry) && forall d :: d in Deps(fs, dir, entry) ==> d in finished
    ensures !Trouble(fs, dir, entry)
  {
    hide Deps, Fine;
    forall p | |p| > 0 && IsPath(fs, dir, p) && p[0] == entry
      ensures Fine(fs, dir, p[|p| - 1]) && p[|p| - 1] !in p[..|p| - 1]
    {
      var n := |p| - 1;
      PathPlaces(fs, dir, entry, finished, p, n);
      if p[n] != entry {
        var k := Place(finished, p[n]);
        assert Fine(fs, dir, finished[k]);
      }
      assert forall j :: 0 <= j < n ==> p[..n][j] == p[j];
    }
  }

  /** Load of a whole entry script.  It terminates on every load graph; nothing is
      run twice; every library finishes after what it loads; and it succeeds exactly
      when there is no trouble. */
  method LoadScript(fs: Files, dir: string, entry: string) returns (ok: bool, ghost finished: seq<string>, ghost started: seq<string>)
    ensures ok <==> ValidPath(entry) && !Trouble(fs, dir, entry)
    ensures NoRepeat(started) && (ok ==> entry in started && Ran(finished, started))
    ensures ok ==> Settled(fs, dir, finished) && forall d :: d in Deps(fs, dir, entry) ==> d in finished
  {
    hide Trouble, Settled, Fine, Deps, IsPath;
    finished, started := [], [];
    if !ValidPath(entry) { return false, finished, started; }
    var loader := new ModuleLoader(fs, dir, entry);
    ok := loader.Execute(entry, [entry]);
    finished, started := loader.finished, loader.started;
    if ok {
      assert entry in [entry];
      NoTrouble(fs, dir, entry, finished);
    }
  }
}
