/** When removing a freshly installed PECL package undoes the installation, and when
    every recorded digest keeps matching the disk. */
module PeclRoundTrip {
  import opened Text
  import opened Pecl
  import opened PeclLaws

  // ----- install, then remove -----

  /** A file that the payload would create is in another package's record, which
      means that the recorded file is missing, or differs in case only. */
  predicate Claimed(windows: bool, s: State, name: string, payload: seq<Artifact>) {
    exists a :: a in payload && Key(windows, a.target) !in s.files && ReferencedByOther(s.packages, name, a.target)
  }

  lemma FreshKept(windows: bool, s: State, name: string, payload: seq<Artifact>, inUse: set<Path>, k: Path)
    requires name !in s.packages && k in s.files
    ensures
      var o := InstallAll(windows, s.packages, name, s.files, payload, inUse);
      k in o.files && o.files[k] == s.files[k]
  {
    hide Key, Clean;
    PayloadKeeps(windows, s.packages, name, s.files, payload, inUse, k);
    NoneNamed(k);
  }

  /** Of the new record nothing but created files is removable ... */
  lemma DoomedFresh(windows: bool, s: State, name: string, release: Package, payload: seq<Artifact>, inUse: set<Path>, k: Path)
    requires name !in s.packages && InstallStep(windows, s, name, release, payload, inUse).1.None?
    requires
      var after := InstallStep(windows, s, name, release, payload, inUse).0;
      name in after.packages && k in Doomed(windows, after.files, after.packages, name, after.packages[name].files)
    ensures Targeted(windows, payload, k) && k !in s.files && !Taken(windows, s.packages, name, payload, k)
  {
    hide Key, Clean, Contains, ReferencedByOther, Escapes, InstallAll, FoldPath, NamedBy, Taken, Targeted, Matches;
    var after := InstallStep(windows, s, name, release, payload, inUse).0;
    var o := InstallAll(windows, s.packages, name, s.files, payload, inUse);
    InstallAllReadable(windows, s.packages, name, s.files, payload, inUse);
    var record := after.packages[name].files;
    var f :| f in record && Removable(windows, after.files, after.packages, name, f) && Key(windows, f.path) == k;
    var i :| 0 <= i < |record| && record[i] == f;
    assert f.path == o.tracked[i] && f.path in o.tracked;
    OthersSame(s.packages, after.packages, name, f.path);
    TrackedTrackable(windows, s.packages, name, s.files, payload, inUse, f.path);
    NothingContained(f.path);
    TakenBy(windows, s.packages, name, payload, f.path);
  }

  /** ... and every created file is, unless it is claimed. */
  lemma FreshDoomed(windows: bool, s: State, name: string, release: Package, payload: seq<Artifact>, inUse: set<Path>, k: Path)
    requires name !in s.packages && InstallStep(windows, s, name, release, payload, inUse).1.None?
    requires Targeted(windows, payload, k) && k !in s.files && !Taken(windows, s.packages, name, payload, k)
    ensures
      var after := InstallStep(windows, s, name, release, payload, inUse).0;
      name in after.packages && k in Doomed(windows, after.files, after.packages, name, after.packages[name].files)
  {
    hide Key, Clean, Contains, ReferencedByOther, Escapes, InstallAll, FoldPath, NamedBy, Taken, Targeted;
    var after := InstallStep(windows, s, name, release, payload, inUse).0;
    var o := InstallAll(windows, s.packages, name, s.files, payload, inUse);
    InstallAllReadable(windows, s.packages, name, s.files, payload, inUse);
    assert after.files == o.files;
    var record := after.packages[name].files;
    ChangedTracked(windows, s.packages, name, s.files, payload, inUse, k);
    var t :| t in o.tracked && Key(windows, t) == k;
    var i :| 0 <= i < |o.tracked| && o.tracked[i] == t;
    assert record[i] in record && record[i].path == t;
    OthersSame(s.packages, after.packages, name, t);
    TrackedTrackable(windows, s.packages, name, s.files, payload, inUse, t);
    TakenBy(windows, s.packages, name, payload, t);
  }

  lemma NothingContained(p: Path)
    ensures !Contains([], p)
  {
  }

  /** A target that is this file is in another package's record. */
  predicate Taken(windows: bool, packages: Packages, name: string, payload: seq<Artifact>, k: Path) {
    exists a :: a in payload && Key(windows, a.target) == k && ReferencedByOther(packages, name, a.target)
  }

  lemma TakenBy(windows: bool, packages: Packages, name: string, payload: seq<Artifact>, t: Path)
    requires Targeted(windows, payload, Key(windows, t))
    ensures Taken(windows, packages, name, payload, Key(windows, t)) <==> ReferencedByOther(packages, name, t)
  {
  }

  lemma FreshUnblocked(windows: bool, s: State, name: string, release: Package, payload: seq<Artifact>, inUse: set<Path>)
    requires name !in s.packages
    requires InstallStep(windows, s, name, release, payload, inUse).1.None?
    ensures
      var after := InstallStep(windows, s, name, release, payload, inUse).0;
      name in after.packages && FirstBlock(windows, after.files, after.packages, name, after.packages[name].files, {}) == |after.packages[name].files|
  {
    hide Key, Clean, Contains, ReferencedByOther, Escapes, InstallAll, FoldPath, NamedBy;
    var after := InstallStep(windows, s, name, release, payload, inUse).0;
    var o := InstallAll(windows, s.packages, name, s.files, payload, inUse);
    InstallAllReadable(windows, s.packages, name, s.files, payload, inUse);
    assert after.files == o.files;
    var record := after.packages[name].files;
    var n := FirstBlock(windows, after.files, after.packages, name, record, {});
    if n < |record| {
      assert record[n].path == o.tracked[n] && o.tracked[n] in o.tracked;
      TrackedTrackable(windows, s.packages, name, s.files, payload, inUse, o.tracked[n]);
      assert false;
    }
  }

  /** Installing a package that has no record and removing it restores every file and
      every record exactly when nothing that the installation created was claimed by
      another package's record; shared and identical companions stay in place. */
  lemma InstallThenRemove(windows: bool, s: State, name: string, release: Package, payload: seq<Artifact>, inUse: set<Path>)
    requires name !in s.packages
    requires InstallStep(windows, s, name, release, payload, inUse).1.None?
    ensures RemoveStep(windows, InstallStep(windows, s, name, release, payload, inUse).0, name, {}) == s <==> !Claimed(windows, s, name, payload)
  {
    hide Key, Clean, Contains, ReferencedByOther, Escapes, InstallAll, FoldPath, NamedBy, Doomed, FirstBlock;
    var after := InstallStep(windows, s, name, release, payload, inUse).0;
    var o := InstallAll(windows, s.packages, name, s.files, payload, inUse);
    assert after.files == o.files;
    FreshUnblocked(windows, s, name, release, payload, inUse);
    var record := after.packages[name].files;
    assert record[..|record|] == record;
    var doomed := Doomed(windows, after.files, after.packages, name, record);
    var back := RemoveStep(windows, after, name, {});
    assert back.files == after.files - doomed;
    assert back.packages == s.packages;
    forall k | k in s.files
      ensures k in back.files && back.files[k] == s.files[k]
    {
      FreshKept(windows, s, name, payload, inUse, k);
      if k in doomed { DoomedFresh(windows, s, name, release, payload, inUse, k); }
    }
    forall k | k !in s.files
      ensures k in back.files <==> Taken(windows, s.packages, name, payload, k)
    {
      ChangedTracked(windows, s.packages, name, s.files, payload, inUse, k);
      if k in doomed { DoomedFresh(windows, s, name, release, payload, inUse, k); }
      if Targeted(windows, payload, k) && !Taken(windows, s.packages, name, payload, k) { FreshDoomed(windows, s, name, release, payload, inUse, k); }
    }
    if Claimed(windows, s, name, payload) {
      var a :| a in payload && Key(windows, a.target) !in s.files && ReferencedByOther(s.packages, name, a.target);
      assert Taken(windows, s.packages, name, payload, Key(windows, a.target));
    }
  }

  /** On Windows nothing is claimed while every recorded file exists. */
  lemma PresentUnclaimed(s: State, name: string, payload: seq<Artifact>)
    requires forall n, f :: n in s.packages && f in s.packages[n].files ==> Key(true, f.path) in s.files
    ensures !Claimed(true, s, name, payload)
  {
  }

  // ----- recorded digests -----

  ghost predicate Fresh(windows: bool, files: Files, record: seq<RecordedFile>) {
    forall f :: f in record ==> !Escapes(f.path) && Matches(windows, files, f)
  }

  /** Every recorded file is inside the root, and there with its recorded digest. */
  ghost predicate Accurate(windows: bool, s: State) {
    forall n :: n in s.packages ==> Fresh(windows, s.files, s.packages[n].files)
  }

  /** The contents that the payload leaves in an owned file. */
  function Last(windows: bool, payload: seq<Artifact>, k: Path): Option<string>
    decreases |payload|
  {
    if payload == [] then None
    else
      var later := Last(windows, payload[1..], k);
      if later.Some? then later
      else if Key(windows, payload[0].target) == k then Some(payload[0].contents)
      else None
  }

  lemma {:induction false} OwnedLast(windows: bool, packages: Packages, name: string, files: Files, payload: seq<Artifact>, inUse: set<Path>, k: Path)
    requires InstallAll(windows, packages, name, files, payload, inUse).failure.None?
    requires k in files && NamedBy(FilesOf(packages, name), k)
    ensures
      var o := InstallAll(windows, packages, name, files, payload, inUse);
      k in o.files && o.files[k] == match Last(windows, payload, k) case Some(c) => File(c) case None => files[k]
    decreases |payload|
  {
    hide Key, NamedBy, InstallOne, Clean;
    if payload != [] {
      OneArtifact(windows, packages, name, files, payload[0], inUse, k);
      OwnedLast(windows, packages, name, InstallOne(windows, packages, name, files, payload[0], inUse).value.1, payload[1..], inUse, k);
    }
  }

  /** The upgrade brings other contents for a companion that the package shares with
      this one of another package's files. */
  ghost predicate Overwrites(windows: bool, packages: Packages, name: string, payload: seq<Artifact>, f: RecordedFile) {
    && NamedBy(FilesOf(packages, name), Key(windows, f.path))
    && match Last(windows, payload, Key(windows, f.path)) case Some(c) => Digest(c) != f.digest case None => false
  }

  ghost predicate OverwritesShared(windows: bool, packages: Packages, name: string, payload: seq<Artifact>) {
    exists n, f :: n in packages && n != name && f in packages[n].files && Overwrites(windows, packages, name, payload, f)
  }

  lemma OtherFile(windows: bool, s: State, name: string, release: Package, payload: seq<Artifact>, inUse: set<Path>, n: string, f: RecordedFile)
    requires n in s.packages && n != name && f in s.packages[n].files && Matches(windows, s.files, f)
    requires InstallStep(windows, s, name, release, payload, inUse).1.None?
    ensures Matches(windows, InstallStep(windows, s, name, release, payload, inUse).0.files, f) <==> !Overwrites(windows, s.packages, name, payload, f)
  {
    hide Key, Clean, Contains, ReferencedByOther, Escapes, InstallAll, FoldPath, NamedBy;
    var k := Key(windows, f.path);
    var (after, failure) := InstallStep(windows, s, name, release, payload, inUse);
    var o := InstallAll(windows, s.packages, name, s.files, payload, inUse);
    InstallFrame(windows, s, name, release, payload, inUse, k);
    NamedByKey(windows, s.packages[n].files, f.path);
    Itself(s.packages[n].files, f);
    if k !in after.files {
      DeletableNamed(windows, s, name, k);
      assert false;
    }
    InstallAllReadable(windows, s.packages, name, s.files, payload, inUse);
    PayloadKeeps(windows, s.packages, name, s.files, payload, inUse, k);
    assert after.files[k] == o.files[k];
    if NamedBy(FilesOf(s.packages, name), k) {
      OwnedLast(windows, s.packages, name, s.files, payload, inUse, k);
    }
  }

  lemma Itself(files: seq<RecordedFile>, f: RecordedFile)
    requires f in files
    ensures Contains(files, f.path)
  {
  }

  lemma OwnRecord(windows: bool, s: State, name: string, release: Package, payload: seq<Artifact>, inUse: set<Path>)
    requires InstallStep(windows, s, name, release, payload, inUse).1.None?
    ensures
      var after := InstallStep(windows, s, name, release, payload, inUse).0;
      name in after.packages && Fresh(windows, after.files, after.packages[name].files)
  {
    hide Key, Clean, ReferencedByOther, Escapes, InstallAll, FoldPath, NamedBy;
    var o := InstallAll(windows, s.packages, name, s.files, payload, inUse);
    InstallAllReadable(windows, s.packages, name, s.files, payload, inUse);
    var after := InstallStep(windows, s, name, release, payload, inUse).0;
    var record := after.packages[name].files;
    forall f | f in record
      ensures !Escapes(f.path) && Matches(windows, after.files, f)
    {
      var i :| 0 <= i < |record| && record[i] == f;
      assert f.path == o.tracked[i] && f.path in o.tracked;
      TrackedTrackable(windows, s.packages, name, s.files, payload, inUse, f.path);
      forall g | g in FilesOf(s.packages, name) && !Contains(record, g.path)
        ensures Key(windows, g.path) != Key(windows, f.path)
      {
        KeySame(windows, f.path, g.path);
      }
    }
  }

  /** A successful install or upgrade keeps every recorded digest in step with the
      disk exactly when it brings no other contents for a shared companion. */
  lemma InstallAccurate(windows: bool, s: State, name: string, release: Package, payload: seq<Artifact>, inUse: set<Path>)
    requires Accurate(windows, s)
    requires InstallStep(windows, s, name, release, payload, inUse).1.None?
    ensures Accurate(windows, InstallStep(windows, s, name, release, payload, inUse).0) <==> !OverwritesShared(windows, s.packages, name, payload)
  {
    hide Key, Clean, Contains, ReferencedByOther, Escapes, InstallAll, FoldPath, NamedBy, Matches, Overwrites;
    var after := InstallStep(windows, s, name, release, payload, inUse).0;
    OwnRecord(windows, s, name, release, payload, inUse);
    forall n, f | n in s.packages && n != name && f in s.packages[n].files
      ensures n in after.packages && after.packages[n] == s.packages[n]
      ensures Matches(windows, after.files, f) <==> !Overwrites(windows, s.packages, name, payload, f)
    {
      OtherFile(windows, s, name, release, payload, inUse, n, f);
    }
    assert forall n :: n in after.packages ==> n == name || (n in s.packages && after.packages[n] == s.packages[n]);
  }

  /** A removal keeps them in step, even when it stops early, unless it had begun to
      delete: then it is the record of that package alone that is behind. */
  lemma RemoveAccurate(windows: bool, s: State, name: string, inUse: set<Path>)
    requires Accurate(windows, s)
    ensures forall n :: n in s.packages && n != name ==> n in RemoveStep(windows, s, name, inUse).packages && Fresh(windows, RemoveStep(windows, s, name, inUse).files, s.packages[n].files)
    ensures name !in RemoveStep(windows, s, name, inUse).packages ==> Accurate(windows, RemoveStep(windows, s, name, inUse))
  {
    hide Key, Clean, Contains, ReferencedByOther, Escapes, FoldPath, NamedBy, RemoveStep;
    var after := RemoveStep(windows, s, name, inUse);
    assert forall n :: n in s.packages && n != name ==> n in after.packages && after.packages[n] == s.packages[n] by { RemoveRecords(windows, s, name, inUse); }
    forall n, f | n in s.packages && n != name && f in s.packages[n].files
      ensures Matches(windows, after.files, f)
    {
      var k := Key(windows, f.path);
      RemoveFrame(windows, s, name, inUse, k);
      if k !in after.files {
        DeletableNamed(windows, s, name, k);
        NamedByKey(windows, s.packages[n].files, f.path);
        Itself(s.packages[n].files, f);
      }
    }
    RemoveRecords(windows, s, name, inUse);
  }

  lemma RemoveRecords(windows: bool, s: State, name: string, inUse: set<Path>)
    ensures
      var after := RemoveStep(windows, s, name, inUse);
      forall n :: (n in after.packages ==> n in s.packages && after.packages[n] == s.packages[n]) && (n in s.packages && n != name ==> n in after.packages)
  {
  }

  // ----- where the claims end -----

  lemma Simple(windows: bool, e: string)
    requires e != "" && e != "." && e != ".."
    ensures Clean([e]) == [e] && !Escapes([e]) && Key(windows, [e]) == if windows then [Fold(e)] else [e]
  {
    assert [e][1..] == [];
    assert CleanOnto([e], []) == [e];
    assert CleanOnto([], [e]) == CleanOnto([e], []);
  }

  /** One artifact that replaces a file of the package, or creates it. */
  lemma OneCopied(windows: bool, packages: Packages, name: string, files: Files, a: Artifact)
    requires Key(windows, a.target) !in files || (Contains(FilesOf(packages, name), a.target) && files[Key(windows, a.target)].File?)
    requires !Escapes(a.target) && Clean(a.target) == a.target
    ensures InstallAll(windows, packages, name, files, [a], {}) == Installed(files[Key(windows, a.target) := File(a.contents)], [a.target], None)
  {
  }

  /** Two packages share a companion; one of them is upgraded with a new one. */
  lemma StaleDigest()
    ensures
      var a := Package("1", "a", false, [RecordedFile(["lib"], Digest("x"))]);
      var s := State(map[["lib"] := File("x")], map["a" := a, "b" := a]);
      var after := InstallStep(true, s, "a", a, [Artifact(["lib"], "y", true)], {});
      Accurate(true, s) && after.1.None? && !Accurate(true, after.0)
  {
    hide Clean, Contains, Escapes, InstallAll, Superseded, OverwritesShared;
    var a := Package("1", "a", false, [RecordedFile(["lib"], Digest("x"))]);
    var s := State(map[["lib"] := File("x")], map["a" := a, "b" := a]);
    var y := Artifact(["lib"], "y", true);
    Simple(true, "lib");
    assert Fold("lib") == "lib";
    Itself(a.files, a.files[0]);
    OneCopied(true, s.packages, "a", s.files, y);
    InstallAccurate(true, s, "a", a, [y], {});
    assert OverwritesShared(true, s.packages, "a", [y]) by { SharedWitness(s, a, y); }
  }

  lemma SharedWitness(s: State, a: Package, y: Artifact)
    requires a.files == [RecordedFile(["lib"], Digest("x"))] && s.packages == map["a" := a, "b" := a] && y == Artifact(["lib"], "y", true)
    ensures OverwritesShared(true, s.packages, "a", [y])
  {
    hide Clean, Escapes;
    Simple(true, "lib");
    assert Fold("lib") == "lib";
    NamedByKey(true, a.files, ["lib"]);
    Itself(a.files, a.files[0]);
    assert [y][1..] == [];
    assert Last(true, [y], ["lib"]) == Some("y");
    var f := a.files[0];
    assert f in s.packages["b"].files && Overwrites(true, s.packages, "a", [y], f);
  }

  lemma SimplePair(d: string, e: string)
    requires d != "" && d != "." && d != ".." && e != "" && e != "." && e != ".."
    ensures Clean([d, e]) == [d, e] && !Escapes([d, e]) && Key(false, [d, e]) == [d, e]
  {
    assert [] + [d, e] == [d, e];
    CleanOntoSame([], [d, e]);
  }

  /** The module of a package, where it is built from source. */
  function Module(name: string): Path { ["ext", name + ".so"] }

  /** A lower-case path inside the root, as it is built from a module's name. */
  predicate LowerTarget(p: Path) {
    Clean(p) == p && !Escapes(p) && Key(false, p) == p && forall i, j :: 0 <= i < |p| && 0 <= j < |p[i]| ==> IsLower(p[i][j])
  }

  lemma LongS()
    ensures SamePath(Module("s"), Module("\U{017F}")) && Module("s") != Module("\U{017F}")
    ensures LowerTarget(Module("s")) && LowerTarget(Module("\U{017F}"))
  {
    hide Clean, Escapes;
    SimplePair("ext", "s" + ".so");
    SimplePair("ext", "\U{017F}" + ".so");
    assert ("s" + ".so")[0] == 's' && ("\U{017F}" + ".so")[0] == '\U{017F}';
    assert Fold("s" + ".so") == Fold("\U{017F}" + ".so");
  }

  /** On a disk that tells case apart, records do not: a package that has `s.so` owns
      the file of the same name with a long s, though both names are lower-case. */
  lemma CaseVariant()
    ensures
      var a, long := Package("1", "a", false, []), Module("\U{017F}");
      var s := State(map[long := File("x")], map[]);
      var steps := [Install("a", a, [Artifact(Module("s"), "y", false)], {}), Install("a", a, [Artifact(long, "z", false)], {})];
      LowerTarget(Module("s")) && LowerTarget(long) && Unnamed(s.packages, long) && !Listed(s.packages, long) && long in Run(false, s, steps).files && Run(false, s, steps).files[long] == File("z")
  {
    hide Clean, Contains, Escapes, InstallAll, NamedBy, Module, SamePath;
    LongS();
    var a, short, long := Package("1", "a", false, []), Module("s"), Module("\U{017F}");
    var s := State(map[long := File("x")], map[]);
    var one, two := Artifact(short, "y", false), Artifact(long, "z", false);
    OneCopied(false, s.packages, "a", s.files, one);
    var mid := InstallStep(false, s, "a", a, [one], {}).0;
    var files := s.files[short := File("y")];
    assert mid.files == files;
    var f := RecordedFile(short, Digest("y"));
    assert mid.packages["a"].files == [f];
    Itself([f], f);
    ReferencedSame(mid.packages, "a", short, long);
    OneCopied(false, mid.packages, "a", files, two);
    var end := InstallStep(false, mid, "a", a, [two], {}).0;
    var g := RecordedFile(long, Digest("z"));
    assert end.packages["a"].files == [g];
    Itself([g], g);
    ReferencedSame(end.packages, "a", short, long);
    assert Contains([g], f.path);
    assert end.files[long] == File("z");
    var steps := [Install("a", a, [one], {}), Install("a", a, [two], {})];
    assert steps[1..] == [Install("a", a, [two], {})] && steps[1..][1..] == [];
    assert Run(false, mid, steps[1..]) == end;
  }
}
