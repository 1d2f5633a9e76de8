/** What installs and removals of PECL packages can and cannot do to a file, over any
    run of them. */
module PeclLaws {
  import opened Text
  import opened Pecl

  datatype Step =
    | Install(name: string, release: Package, payload: seq<Artifact>, inUse: set<Path>)
    | Remove(name: string, inUse: set<Path>)

  /** The state after a step, whether it succeeded or not. */
  ghost function Apply(windows: bool, s: State, step: Step): State {
    match step
    case Install(name, release, payload, inUse) => InstallStep(windows, s, name, release, payload, inUse).0
    case Remove(name, inUse) => RemoveStep(windows, s, name, inUse)
  }

  ghost function Run(windows: bool, s: State, steps: seq<Step>): State
    decreases |steps|
  {
    if steps == [] then s else Run(windows, Apply(windows, s, steps[0]), steps[1..])
  }

  // ----- tracking -----

  ghost predicate Tracks(windows: bool, tracked: seq<Path>, k: Path) {
    exists t :: t in tracked && Key(windows, t) == k
  }

  /** What a successful payload created or changed is tracked. */
  lemma {:induction false} ChangedTracked(windows: bool, packages: Packages, name: string, files: Files, payload: seq<Artifact>, inUse: set<Path>, k: Path)
    requires InstallAll(windows, packages, name, files, payload, inUse).failure.None?
    ensures
      var o := InstallAll(windows, packages, name, files, payload, inUse);
      && ((k in files && k in o.files && o.files[k] != files[k]) || (k !in files && k in o.files) ==> Tracks(windows, o.tracked, k))
      && (k !in files ==> (k in o.files <==> Targeted(windows, payload, k)))
    decreases |payload|
  {
    hide Key, NamedBy, InstallOne, Clean;
    if k in files { PayloadKeeps(windows, packages, name, files, payload, inUse, k); }
    if payload != [] {
      var a := payload[0];
      OneArtifact(windows, packages, name, files, a, inUse, k);
      KeySame(windows, a.target, []);
      var (tracked, after) := InstallOne(windows, packages, name, files, a, inUse).value;
      if k in after { PayloadKeeps(windows, packages, name, after, payload[1..], inUse, k); }
      ChangedTracked(windows, packages, name, after, payload[1..], inUse, k);
      var o := InstallAll(windows, packages, name, files, payload, inUse);
      var rest := InstallAll(windows, packages, name, after, payload[1..], inUse);
      assert forall t :: t in rest.tracked ==> t in o.tracked;
      if tracked { assert o.tracked[0] == Clean(a.target); }
      assert Targeted(windows, payload, k) <==> Key(windows, a.target) == k || Targeted(windows, payload[1..], k);
    }
  }

  /** A tracked path lies inside the root, and denotes a file that is new, the
      package's own, or another package's. */
  ghost predicate Trackable(windows: bool, packages: Packages, name: string, files: Files, t: Path) {
    !Escapes(t) && Clean(t) == t && (Key(windows, t) in files ==> Contains(FilesOf(packages, name), t) || ReferencedByOther(packages, name, t))
  }

  lemma ReferencedSame(packages: Packages, name: string, p: Path, q: Path)
    requires SamePath(p, q)
    ensures ReferencedByOther(packages, name, p) == ReferencedByOther(packages, name, q)
    ensures forall files :: Contains(files, p) == Contains(files, q)
  {
  }

  lemma {:induction false} TrackedTrackable(windows: bool, packages: Packages, name: string, files: Files, payload: seq<Artifact>, inUse: set<Path>, t: Path)
    requires t in InstallAll(windows, packages, name, files, payload, inUse).tracked
    ensures Trackable(windows, packages, name, files, t) && Targeted(windows, payload, Key(windows, t))
    decreases |payload|
  {
    hide Key, NamedBy, Clean, Contains, ReferencedByOther, Escapes;
    var a := payload[0];
    KeySame(windows, a.target, t);
    CleanTwice(a.target);
    ReferencedSame(packages, name, Clean(a.target), a.target);
    var (tracked, after) := InstallOne(windows, packages, name, files, a, inUse).value;
    if !(tracked && t == Clean(a.target)) {
      TrackedTrackable(windows, packages, name, after, payload[1..], inUse, t);
    }
  }

  // ----- one step, one file -----

  /** Why a step of this package may delete the file: its record has the file with
      the very contents that are on disk, and no other record has it. */
  ghost predicate Deletable(windows: bool, s: State, name: string, k: Path) {
    exists f :: f in FilesOf(s.packages, name) && Key(windows, f.path) == k && Removable(windows, s.files, s.packages, name, f)
  }

  lemma OthersSame(packages: Packages, after: Packages, name: string, p: Path)
    requires forall n :: n != name ==> (n in packages <==> n in after) && (n in packages ==> packages[n] == after[n])
    ensures ReferencedByOther(packages, name, p) == ReferencedByOther(after, name, p)
  {
  }

  lemma InstallFrame(windows: bool, s: State, name: string, release: Package, payload: seq<Artifact>, inUse: set<Path>, k: Path)
    requires k in s.files
    ensures
      var after := InstallStep(windows, s, name, release, payload, inUse).0;
      if k !in after.files then Deletable(windows, s, name, k)
      else after.files[k] == s.files[k] || (NamedBy(FilesOf(s.packages, name), k) && exists a :: a in payload && Key(windows, a.target) == k && after.files[k] == File(a.contents))
  {
    hide Key, NamedBy, Clean, InstallAll, Contains, ReferencedByOther, Escapes, FoldPath;
    PayloadKeeps(windows, s.packages, name, s.files, payload, inUse, k);
    var o := InstallAll(windows, s.packages, name, s.files, payload, inUse);
    var (after, failure) := InstallStep(windows, s, name, release, payload, inUse);
    if o.failure.None? && k !in after.files {
      InstallAllReadable(windows, s.packages, name, s.files, payload, inUse);
      var record := Recorded(windows, o.files, o.tracked);
      var f :| f in FilesOf(s.packages, name) && !Contains(record, f.path) && Removable(windows, o.files, after.packages, name, f) && Key(windows, f.path) == k;
      OthersSame(s.packages, after.packages, name, f.path);
      ChangedTracked(windows, s.packages, name, s.files, payload, inUse, k);
      if o.files[k] != s.files[k] {
        TrackedRecorded(windows, o.files, o.tracked, f.path);
      }
    }
  }

  lemma TrackedRecorded(windows: bool, files: Files, tracked: seq<Path>, p: Path)
    requires Readable(windows, files, tracked) && Tracks(windows, tracked, Key(windows, p))
    ensures Contains(Recorded(windows, files, tracked), p)
  {
  }

  /** The old record has this file with the contents that are on disk, inside the root
      and not in use; no other record names it, and neither does the new one. */
  ghost predicate Stale(windows: bool, s: State, after: State, name: string, inUse: set<Path>, f: RecordedFile, k: Path) {
    && f in FilesOf(s.packages, name) && Key(windows, f.path) == k && !Escapes(f.path)
    && k in s.files && s.files[k].File? && Digest(s.files[k].contents) == f.digest && k !in inUse
    && (forall n :: n in s.packages && n != name ==> !Contains(s.packages[n].files, f.path))
    && !Contains(FilesOf(after.packages, name), f.path)
  }

  /** A successful install deletes exactly the files that have become stale, and
      changes the record of its own package only. */
  lemma InstallDeletes(windows: bool, s: State, name: string, release: Package, payload: seq<Artifact>, inUse: set<Path>, k: Path)
    requires k in s.files && InstallStep(windows, s, name, release, payload, inUse).1.None?
    ensures
      var after := InstallStep(windows, s, name, release, payload, inUse).0;
      && (k !in after.files <==> exists f :: Stale(windows, s, after, name, inUse, f, k))
      && after.packages == s.packages[name := release.(files := FilesOf(after.packages, name))]
  {
    hide Key, NamedBy, Clean, InstallAll, Contains, Escapes, FoldPath;
    PayloadKeeps(windows, s.packages, name, s.files, payload, inUse, k);
    InstallAllReadable(windows, s.packages, name, s.files, payload, inUse);
    ChangedTracked(windows, s.packages, name, s.files, payload, inUse, k);
    var o := InstallAll(windows, s.packages, name, s.files, payload, inUse);
    var after := InstallStep(windows, s, name, release, payload, inUse).0;
    var record := Recorded(windows, o.files, o.tracked);
    forall f: RecordedFile | Key(windows, f.path) == k && !Contains(record, f.path)
      ensures o.files[k] == s.files[k]
    {
      if o.files[k] != s.files[k] { TrackedRecorded(windows, o.files, o.tracked, f.path); }
    }
    forall f: RecordedFile
      ensures ReferencedByOther(after.packages, name, f.path) <==> exists n :: n in s.packages && n != name && Contains(s.packages[n].files, f.path)
    {
      OthersSame(s.packages, after.packages, name, f.path);
    }
    if f :| Stale(windows, s, after, name, inUse, f, k) {
      assert Removable(windows, o.files, after.packages, name, f);
    }
    if k !in after.files {
      var f :| f in FilesOf(s.packages, name) && !Contains(record, f.path) && Removable(windows, o.files, after.packages, name, f) && Key(windows, f.path) == k && k !in inUse;
      assert Stale(windows, s, after, name, inUse, f, k);
    }
  }

  /** What an install puts on record: artifacts that are new, the package's own, or on
      another package's record. */
  ghost predicate Recordable(windows: bool, s: State, name: string, a: Artifact) {
    || Key(windows, a.target) !in s.files || Contains(FilesOf(s.packages, name), a.target)
    || exists n :: n in s.packages && n != name && Contains(s.packages[n].files, a.target)
  }

  lemma {:induction false} PayloadTracks(windows: bool, packages: Packages, name: string, files: Files, payload: seq<Artifact>, inUse: set<Path>, a: Artifact)
    requires InstallAll(windows, packages, name, files, payload, inUse).failure.None? && a in payload
    requires Recordable(windows, State(files, packages), name, a)
    ensures Tracks(windows, InstallAll(windows, packages, name, files, payload, inUse).tracked, Key(windows, a.target))
    decreases |payload|
  {
    hide Key, NamedBy, Clean, Contains, Escapes, InstallOne;
    var b, k := payload[0], Key(windows, a.target);
    KeySame(windows, b.target, a.target);
    OneArtifact(windows, packages, name, files, b, inUse, k);
    var (tracked, after) := InstallOne(windows, packages, name, files, b, inUse).value;
    var rest := InstallAll(windows, packages, name, after, payload[1..], inUse);
    var o := InstallAll(windows, packages, name, files, payload, inUse);
    assert forall t :: t in rest.tracked ==> t in o.tracked;
    if Key(windows, b.target) == k {
      OneTracked(windows, packages, name, files, a, b, inUse);
      assert o.tracked[0] == Clean(b.target);
    } else {
      PayloadTracks(windows, packages, name, after, payload[1..], inUse, a);
    }
  }

  lemma OneTracked(windows: bool, packages: Packages, name: string, files: Files, a: Artifact, b: Artifact, inUse: set<Path>)
    requires InstallOne(windows, packages, name, files, b, inUse).Ok? && Key(windows, a.target) == Key(windows, b.target)
    requires Recordable(windows, State(files, packages), name, a)
    ensures InstallOne(windows, packages, name, files, b, inUse).value.0
  {
    KeySame(windows, a.target, b.target);
    ReferencedSame(packages, name, a.target, b.target);
    hide Key, Clean, Contains, Escapes;
  }

  /** A successful install has an artifact on record exactly then, and nothing else, with
      the digest of what is on disk. */
  lemma InstallRecords(windows: bool, s: State, name: string, release: Package, payload: seq<Artifact>, inUse: set<Path>)
    requires InstallStep(windows, s, name, release, payload, inUse).1.None?
    ensures
      var after := InstallStep(windows, s, name, release, payload, inUse).0;
      var record := FilesOf(after.packages, name);
      && (forall a :: a in payload ==> (Recordable(windows, s, name, a) <==> exists f :: f in record && Key(windows, f.path) == Key(windows, a.target)))
      && (forall f :: f in record ==> Targeted(windows, payload, Key(windows, f.path)) && Matches(windows, after.files, f))
  {
    hide Key, NamedBy, Clean, InstallAll, Contains, Escapes, FoldPath, Targeted, Recordable;
    InstallAllReadable(windows, s.packages, name, s.files, payload, inUse);
    var o := InstallAll(windows, s.packages, name, s.files, payload, inUse);
    var after := InstallStep(windows, s, name, release, payload, inUse).0;
    var record := FilesOf(after.packages, name);
    assert record == Recorded(windows, o.files, o.tracked);
    forall f | f in record
      ensures Targeted(windows, payload, Key(windows, f.path)) && Matches(windows, after.files, f)
    {
      TrackedTrackable(windows, s.packages, name, s.files, payload, inUse, f.path);
      NotSuperseded(windows, o.files, after.packages, name, FilesOf(s.packages, name), record, inUse, f);
    }
    forall a | a in payload
      ensures Recordable(windows, s, name, a) <==> exists f :: f in record && Key(windows, f.path) == Key(windows, a.target)
    {
      if Recordable(windows, s, name, a) {
        PayloadTracks(windows, s.packages, name, s.files, payload, inUse, a);
        var t :| t in o.tracked && Key(windows, t) == Key(windows, a.target);
        var j :| 0 <= j < |o.tracked| && o.tracked[j] == t;
        assert record[j].path == t;
      }
      forall f | f in record && Key(windows, f.path) == Key(windows, a.target)
        ensures Recordable(windows, s, name, a)
      {
        TrackedTrackable(windows, s.packages, name, s.files, payload, inUse, f.path);
        TrackableRecordable(windows, s, name, a, f.path);
      }
    }
  }

  lemma NotSuperseded(windows: bool, files: Files, packages: Packages, name: string, was: seq<RecordedFile>, record: seq<RecordedFile>, inUse: set<Path>, f: RecordedFile)
    requires f in record
    ensures Key(windows, f.path) !in Superseded(windows, files, packages, name, was, record, inUse)
  {
    hide Key, Removable;
    forall g: RecordedFile | Key(windows, g.path) == Key(windows, f.path)
      ensures Contains(record, g.path)
    {
      KeySame(windows, f.path, g.path);
    }
  }

  lemma TrackableRecordable(windows: bool, s: State, name: string, a: Artifact, t: Path)
    requires Trackable(windows, s.packages, name, s.files, t) && Key(windows, t) == Key(windows, a.target)
    ensures Recordable(windows, s, name, a)
  {
    hide Key, Clean, Contains, Escapes;
    KeySame(windows, t, a.target);
    ReferencedSame(s.packages, name, t, a.target);
  }

  lemma RemoveFrame(windows: bool, s: State, name: string, inUse: set<Path>, k: Path)
    requires k in s.files
    ensures
      var after := RemoveStep(windows, s, name, inUse);
      if k !in after.files then Deletable(windows, s, name, k) else after.files[k] == s.files[k]
  {
  }

  /** The record has this file, and no other record does. */
  predicate OwnFile(s: State, name: string, f: RecordedFile) {
    f in FilesOf(s.packages, name) && forall n :: n in s.packages && n != name ==> !Contains(s.packages[n].files, f.path)
  }

  /** A file that no other record has stops the removal when it lies outside the root,
      cannot be read, or is unmodified and in use. */
  predicate Stops(windows: bool, s: State, name: string, inUse: set<Path>, f: RecordedFile) {
    var k := Key(windows, f.path);
    && OwnFile(s, name, f)
    && (Escapes(f.path) || (k in s.files && (s.files[k].Other? || (Digest(s.files[k].contents) == f.digest && k in inUse))))
  }

  /** A removal forgets the record exactly when no file stops it, and has then deleted
      exactly the package's own unmodified files. */
  lemma RemoveDeletes(windows: bool, s: State, name: string, inUse: set<Path>)
    requires name in s.packages
    ensures
      var after := RemoveStep(windows, s, name, inUse);
      && (name !in after.packages <==> forall f :: f in FilesOf(s.packages, name) ==> !Stops(windows, s, name, inUse, f))
      && (name !in after.packages ==> forall k :: k in s.files ==>
            (k !in after.files <==> exists f :: OwnFile(s, name, f) && Key(windows, f.path) == k && s.files[k].File? && Digest(s.files[k].contents) == f.digest))
  {
    hide Key, Clean, Contains, Escapes;
    var record := s.packages[name].files;
    forall f: RecordedFile | f in record
      ensures Stops(windows, s, name, inUse, f) <==> Blocks(windows, s.files, s.packages, name, f, inUse)
    {
    }
    var n := FirstBlock(windows, s.files, s.packages, name, record, inUse);
    if n == |record| { assert record[..n] == record; }
    forall k | k in s.files && n == |record|
      ensures k in Doomed(windows, s.files, s.packages, name, record) <==>
        exists f :: OwnFile(s, name, f) && Key(windows, f.path) == k && s.files[k].File? && Digest(s.files[k].contents) == f.digest
    {
      if f :| OwnFile(s, name, f) && Key(windows, f.path) == k && s.files[k].File? && Digest(s.files[k].contents) == f.digest {
        assert Removable(windows, s.files, s.packages, name, f);
      }
    }
  }

  /** A step touches an existing file only if the package's own record names it; it
      deletes it only with the contents its record hashed and with no other record
      naming it, and changes it only to what its payload brings. */
  lemma StepFrame(windows: bool, s: State, step: Step, k: Path)
    requires k in s.files
    ensures
      var after := Apply(windows, s, step);
      if k !in after.files then Deletable(windows, s, step.name, k)
      else
        || after.files[k] == s.files[k]
        || (step.Install? && NamedBy(FilesOf(s.packages, step.name), k) && exists a :: a in step.payload && Key(windows, a.target) == k && after.files[k] == File(a.contents))
  {
    hide InstallStep, RemoveStep, Deletable, NamedBy, Key;
    match step
    case Install(name, release, payload, inUse) => InstallFrame(windows, s, name, release, payload, inUse, k);
    case Remove(name, inUse) => RemoveFrame(windows, s, name, inUse, k);
  }

  lemma DeletableNamed(windows: bool, s: State, name: string, k: Path)
    requires Deletable(windows, s, name, k)
    ensures NamedBy(FilesOf(s.packages, name), k) && name in s.packages
    ensures forall n :: n in s.packages && n != name ==> !NamedBy(s.packages[n].files, k)
  {
    hide Key, Clean, FoldPath, Contains, Escapes;
    var f :| f in FilesOf(s.packages, name) && Key(windows, f.path) == k && Removable(windows, s.files, s.packages, name, f);
    KeySame(windows, f.path, f.path);
    forall n | n in s.packages && n != name
      ensures !NamedBy(s.packages[n].files, k)
    {
      NamedByKey(windows, s.packages[n].files, f.path);
    }
  }

  // ----- when a payload can be installed -----

  /** The contents of the first artifact for this file. */
  function First(windows: bool, payload: seq<Artifact>, k: Path): Option<string> {
    if payload == [] then None
    else if Key(windows, payload[0].target) == k then Some(payload[0].contents)
    else First(windows, payload[1..], k)
  }

  /** Artifact i finds its place: an owned or missing file that is not in use, or a
      companion that is there with the same contents. */
  predicate Lands(windows: bool, packages: Packages, name: string, files: Files, payload: seq<Artifact>, inUse: set<Path>, i: nat)
    requires i < |payload|
  {
    var a := payload[i];
    var k := Key(windows, a.target);
    && !Escapes(a.target)
    && if Contains(FilesOf(packages, name), a.target) then k !in inUse && !(k in files && files[k].Other?)
       else if k in files then files[k] == File(a.contents) && a.shared
       else match First(windows, payload[..i], k) case Some(c) => c == a.contents && a.shared case None => k !in inUse
  }

  predicate Installable(windows: bool, packages: Packages, name: string, files: Files, payload: seq<Artifact>, inUse: set<Path>) {
    forall i :: 0 <= i < |payload| ==> Lands(windows, packages, name, files, payload, inUse, i)
  }

  lemma OneLands(windows: bool, packages: Packages, name: string, files: Files, payload: seq<Artifact>, inUse: set<Path>)
    requires payload != []
    ensures InstallOne(windows, packages, name, files, payload[0], inUse).Ok? <==> Lands(windows, packages, name, files, payload, inUse, 0)
  {
    hide Key, Escapes, Contains, ReferencedByOther;
    assert payload[..0] == [];
  }

  lemma RestLands(windows: bool, packages: Packages, name: string, files: Files, payload: seq<Artifact>, inUse: set<Path>, i: nat)
    requires i + 1 < |payload| && InstallOne(windows, packages, name, files, payload[0], inUse).Ok?
    ensures var after := InstallOne(windows, packages, name, files, payload[0], inUse).value.1;
      Lands(windows, packages, name, files, payload, inUse, i + 1) <==> Lands(windows, packages, name, after, payload[1..], inUse, i)
  {
    hide Key, Clean, Contains, NamedBy, Escapes, ReferencedByOther;
    var a := payload[i + 1];
    var k := Key(windows, a.target);
    assert payload[..i + 1][0] == payload[0] && payload[..i + 1][1..] == payload[1..][..i];
    NamedByKey(windows, FilesOf(packages, name), a.target);
    NamedByKey(windows, FilesOf(packages, name), payload[0].target);
  }

  lemma ShiftLands(windows: bool, packages: Packages, name: string, files: Files, payload: seq<Artifact>, inUse: set<Path>, after: Files, rest: seq<Artifact>)
    requires payload != [] && rest == payload[1..]
    requires forall i :: 0 <= i < |rest| ==> (Lands(windows, packages, name, files, payload, inUse, i + 1) <==> Lands(windows, packages, name, after, rest, inUse, i))
    ensures Installable(windows, packages, name, files, payload, inUse) <==>
      Lands(windows, packages, name, files, payload, inUse, 0) && Installable(windows, packages, name, after, rest, inUse)
  {
    hide Lands;
    if Installable(windows, packages, name, after, rest, inUse) && Lands(windows, packages, name, files, payload, inUse, 0) {
      forall i | 0 <= i < |payload|
        ensures Lands(windows, packages, name, files, payload, inUse, i)
      {
        if i > 0 { assert Lands(windows, packages, name, after, rest, inUse, i - 1); }
      }
    }
  }

  /** A payload is installed completely exactly when each artifact finds its place. */
  lemma {:induction false} InstallSucceeds(windows: bool, packages: Packages, name: string, files: Files, payload: seq<Artifact>, inUse: set<Path>)
    ensures InstallAll(windows, packages, name, files, payload, inUse).failure.None? <==> Installable(windows, packages, name, files, payload, inUse)
    decreases |payload|
  {
    hide InstallOne, Lands, Clean;
    if payload != [] {
      OneLands(windows, packages, name, files, payload, inUse);
      var one := InstallOne(windows, packages, name, files, payload[0], inUse);
      if one.Ok? {
        InstallSucceeds(windows, packages, name, one.value.1, payload[1..], inUse);
        var rest := payload[1..];
        forall i | 0 <= i < |rest|
          ensures Lands(windows, packages, name, files, payload, inUse, i + 1) <==> Lands(windows, packages, name, one.value.1, rest, inUse, i)
        {
          RestLands(windows, packages, name, files, payload, inUse, i);
        }
        ShiftLands(windows, packages, name, files, payload, inUse, one.value.1, rest);
      }
    }
  }

  // ----- files that no record names -----

  predicate Unnamed(packages: Packages, k: Path) {
    forall n :: n in packages ==> !NamedBy(packages[n].files, k)
  }

  /** The step puts on record a new file that differs from this one in case only. */
  ghost predicate Claims(windows: bool, s: State, step: Step, k: Path) {
    && step.Install?
    && Installable(windows, s.packages, step.name, s.files, step.payload, step.inUse)
    && exists a :: a in step.payload && FoldPath(Clean(a.target)) == FoldPath(k) && Key(windows, a.target) !in s.files
  }

  /** On Windows there is no such file. */
  lemma WindowsClaims(s: State, step: Step, k: Path)
    requires k in s.files && FoldPath(k) == k
    ensures !Claims(true, s, step, k)
  {
  }

  /** A step leaves a file that no record names as it is; and unnamed, exactly when it
      does not put a case variant on record. */
  lemma StepUnnamed(windows: bool, s: State, step: Step, k: Path)
    requires k in s.files && Unnamed(s.packages, k)
    ensures
      var after := Apply(windows, s, step);
      && k in after.files && after.files[k] == s.files[k]
      && (Unnamed(after.packages, k) <==> !Claims(windows, s, step, k))
  {
    hide NamedBy, Clean, FoldPath, Key, Deletable, InstallAll;
    StepFrame(windows, s, step, k);
    if Deletable(windows, s, step.name, k) { DeletableNamed(windows, s, step.name, k); }
    assert !NamedBy(FilesOf(s.packages, step.name), k) by { NoneNamed(k); }
    match step
    case Install(name, release, payload, inUse) => StepNames(windows, s, name, release, payload, inUse, k);
    case Remove(name, inUse) => FewerRecords(windows, s, name, inUse, k);
  }

  lemma FewerRecords(windows: bool, s: State, name: string, inUse: set<Path>, k: Path)
    requires Unnamed(s.packages, k)
    ensures Unnamed(RemoveStep(windows, s, name, inUse).packages, k)
  {
  }

  lemma NoneNamed(k: Path)
    ensures !NamedBy([], k)
  {
  }

  /** The new record names the file exactly when a variant of it is new. */
  lemma StepNames(windows: bool, s: State, name: string, release: Package, payload: seq<Artifact>, inUse: set<Path>, k: Path)
    requires k in s.files && Unnamed(s.packages, k)
    ensures Unnamed(InstallStep(windows, s, name, release, payload, inUse).0.packages, k) <==> !Claims(windows, s, Install(name, release, payload, inUse), k)
  {
    hide Clean, FoldPath, Key, InstallAll, NamedBy, Installable;
    InstallSucceeds(windows, s.packages, name, s.files, payload, inUse);
    var o := InstallAll(windows, s.packages, name, s.files, payload, inUse);
    var after := InstallStep(windows, s, name, release, payload, inUse).0;
    if o.failure.None? {
      InstallAllReadable(windows, s.packages, name, s.files, payload, inUse);
      RecordNames(windows, o.files, o.tracked, k);
      assert forall n :: n in after.packages && n != name ==> n in s.packages && after.packages[n] == s.packages[n];
      assert Unnamed(after.packages, k) <==> !NamedBy(after.packages[name].files, k);
      if t :| t in o.tracked && FoldPath(Clean(t)) == FoldPath(k) {
        TrackedVariant(windows, s, name, payload, inUse, t, k);
      }
      if a :| a in payload && FoldPath(Clean(a.target)) == FoldPath(k) && Key(windows, a.target) !in s.files {
        VariantTracked(windows, s, name, payload, inUse, a, k);
      }
    }
  }

  lemma RecordNames(windows: bool, files: Files, tracked: seq<Path>, k: Path)
    requires Readable(windows, files, tracked)
    ensures NamedBy(Recorded(windows, files, tracked), k) <==> exists t :: t in tracked && FoldPath(Clean(t)) == FoldPath(k)
  {
  }

  /** A tracked variant is a new file, since no record has it. */
  lemma TrackedVariant(windows: bool, s: State, name: string, payload: seq<Artifact>, inUse: set<Path>, t: Path, k: Path)
    requires Unnamed(s.packages, k) && FoldPath(Clean(t)) == FoldPath(k)
    requires t in InstallAll(windows, s.packages, name, s.files, payload, inUse).tracked
    ensures exists a :: a in payload && FoldPath(Clean(a.target)) == FoldPath(k) && Key(windows, a.target) !in s.files
  {
    hide Clean, FoldPath, Key, InstallAll, Contains, ReferencedByOther, Unnamed;
    TrackedTrackable(windows, s.packages, name, s.files, payload, inUse, t);
    NotReferenced(windows, s.packages, name, t, k);
    var a :| a in payload && Key(windows, a.target) == Key(windows, t);
    KeySame(windows, a.target, t);
  }

  /** A new variant is tracked. */
  lemma VariantTracked(windows: bool, s: State, name: string, payload: seq<Artifact>, inUse: set<Path>, a: Artifact, k: Path)
    requires InstallAll(windows, s.packages, name, s.files, payload, inUse).failure.None?
    requires a in payload && FoldPath(Clean(a.target)) == FoldPath(k) && Key(windows, a.target) !in s.files
    ensures exists t :: t in InstallAll(windows, s.packages, name, s.files, payload, inUse).tracked && FoldPath(Clean(t)) == FoldPath(k)
  {
    hide Clean, FoldPath, Key, InstallAll;
    var o := InstallAll(windows, s.packages, name, s.files, payload, inUse);
    ChangedTracked(windows, s.packages, name, s.files, payload, inUse, Key(windows, a.target));
    var t :| t in o.tracked && Key(windows, t) == Key(windows, a.target);
    KeySame(windows, t, a.target);
  }

  lemma NotReferenced(windows: bool, packages: Packages, name: string, p: Path, k: Path)
    requires Unnamed(packages, k) && FoldPath(Clean(p)) == FoldPath(k)
    ensures !ReferencedByOther(packages, name, p) && !Contains(FilesOf(packages, name), p)
  {
  }

  /** No step of the run puts a case variant of the file on record. */
  ghost predicate NeverClaimed(windows: bool, s: State, steps: seq<Step>, k: Path)
    decreases |steps|
  {
    steps == [] || (!Claims(windows, s, steps[0], k) && NeverClaimed(windows, Apply(windows, s, steps[0]), steps[1..], k))
  }

  /** No record names the file at any point of the run. */
  ghost predicate NeverNamed(windows: bool, s: State, steps: seq<Step>, k: Path)
    decreases |steps|
  {
    Unnamed(s.packages, k) && (steps == [] || NeverNamed(windows, Apply(windows, s, steps[0]), steps[1..], k))
  }

  /** Over any run of installs, upgrades and removals, failing ones included: a file
      that no record names stays unnamed throughout exactly when no step puts a case
      variant of it on record, and as long as that is so it is neither changed nor
      deleted. */
  lemma {:induction false} UnnamedSafe(windows: bool, s: State, steps: seq<Step>, k: Path)
    requires k in s.files && Unnamed(s.packages, k)
    ensures NeverNamed(windows, s, steps, k) <==> NeverClaimed(windows, s, steps, k)
    ensures NeverClaimed(windows, s, steps, k) ==>
      var after := Run(windows, s, steps);
      k in after.files && after.files[k] == s.files[k] && Unnamed(after.packages, k)
    decreases |steps|
  {
    hide Unnamed, Claims, Apply;
    if steps != [] {
      var after := Apply(windows, s, steps[0]);
      StepUnnamed(windows, s, steps[0], k);
      if Unnamed(after.packages, k) { UnnamedSafe(windows, after, steps[1..], k); }
    }
  }

  /** On Windows that is every run. */
  lemma {:induction false} WindowsSafe(s: State, steps: seq<Step>, k: Path)
    requires k in s.files && Unnamed(s.packages, k) && FoldPath(k) == k
    ensures NeverClaimed(true, s, steps, k)
    decreases |steps|
  {
    hide Unnamed, Claims, Apply, FoldPath;
    if steps != [] {
      WindowsClaims(s, steps[0], k);
      StepUnnamed(true, s, steps[0], k);
      WindowsSafe(Apply(true, s, steps[0]), steps[1..], k);
    }
  }

  // ----- files that no record lists, on a disk that tells case apart -----

  /** A record has exactly this path. */
  ghost predicate Listed(packages: Packages, k: Path) {
    exists n :: n in packages && Lists(packages[n].files, k)
  }

  ghost predicate Lists(files: seq<RecordedFile>, k: Path) {
    exists f :: f in files && Clean(f.path) == k
  }

  /** The step installs this file, and a record has a case variant of it. */
  ghost predicate Usurps(s: State, step: Step, k: Path) {
    && step.Install?
    && exists a :: a in step.payload && Clean(a.target) == k && (Contains(FilesOf(s.packages, step.name), a.target) || ReferencedByOther(s.packages, step.name, a.target))
  }

  lemma NotDeleted(s: State, name: string, k: Path)
    requires !Listed(s.packages, k)
    ensures !Deletable(false, s, name, k)
  {
    hide Clean, Removable, FoldPath;
  }

  lemma NotChanged(s: State, step: Step, k: Path)
    requires step.Install? && !Usurps(s, step, k) && NamedBy(FilesOf(s.packages, step.name), k)
    ensures forall a :: a in step.payload ==> Key(false, a.target) != k
  {
    hide Clean, FoldPath, Contains, NamedBy, ReferencedByOther;
    forall a | a in step.payload
      ensures Key(false, a.target) != k
    {
      NamedByKey(false, FilesOf(s.packages, step.name), a.target);
    }
  }

  /** What a successful payload finds on record it tracks. */
  lemma {:induction false} OnRecordTracked(windows: bool, packages: Packages, name: string, files: Files, payload: seq<Artifact>, inUse: set<Path>, a: Artifact)
    requires InstallAll(windows, packages, name, files, payload, inUse).failure.None? && a in payload
    requires Contains(FilesOf(packages, name), a.target) || ReferencedByOther(packages, name, a.target)
    ensures Clean(a.target) in InstallAll(windows, packages, name, files, payload, inUse).tracked
    decreases |payload|
  {
    hide Key, Clean, Contains, ReferencedByOther, Escapes;
    var (tracked, after) := InstallOne(windows, packages, name, files, payload[0], inUse).value;
    if a != payload[0] { OnRecordTracked(windows, packages, name, after, payload[1..], inUse, a); }
  }

  lemma RecordLists(windows: bool, files: Files, tracked: seq<Path>, k: Path)
    requires Readable(windows, files, tracked)
    ensures Lists(Recorded(windows, files, tracked), k) <==> exists t :: t in tracked && Clean(t) == k
  {
    hide Key, Clean;
    var r := Recorded(windows, files, tracked);
    if t :| t in tracked && Clean(t) == k {
      var i :| 0 <= i < |tracked| && tracked[i] == t;
      assert r[i] in r;
    }
  }

  /** A tracked path that is there and not listed has a variant on record. */
  lemma TrackedUsurps(s: State, step: Step, t: Path, k: Path)
    requires step.Install? && k in s.files && Clean(t) == k
    requires t in InstallAll(false, s.packages, step.name, s.files, step.payload, step.inUse).tracked
    ensures Usurps(s, step, k)
  {
    hide Clean, FoldPath, InstallAll, Contains, ReferencedByOther, Escapes;
    TrackedTrackable(false, s.packages, step.name, s.files, step.payload, step.inUse, t);
    var a :| a in step.payload && Key(false, a.target) == Key(false, t);
    KeySame(false, a.target, t);
    ReferencedSame(s.packages, step.name, a.target, t);
  }

  lemma StepLists(s: State, step: Step, k: Path)
    requires step.Install? && k in s.files && !Listed(s.packages, k)
    ensures Listed(Apply(false, s, step).packages, k) ==> Usurps(s, step, k)
    ensures Usurps(s, step, k) && Installable(false, s.packages, step.name, s.files, step.payload, step.inUse) ==> Listed(Apply(false, s, step).packages, k)
  {
    hide Clean, FoldPath, InstallAll, Contains, ReferencedByOther, Lists, Installable, Usurps;
    var (name, payload, inUse) := (step.name, step.payload, step.inUse);
    InstallSucceeds(false, s.packages, name, s.files, payload, inUse);
    var o := InstallAll(false, s.packages, name, s.files, payload, inUse);
    var after := Apply(false, s, step);
    if o.failure.None? {
      InstallAllReadable(false, s.packages, name, s.files, payload, inUse);
      RecordLists(false, o.files, o.tracked, k);
      assert forall n :: n in after.packages && n != name ==> n in s.packages && after.packages[n] == s.packages[n];
      assert Listed(after.packages, k) <==> Lists(after.packages[name].files, k);
      if t :| t in o.tracked && Clean(t) == k { TrackedUsurps(s, step, t, k); }
      if Usurps(s, step, k) {
        var a := Usurper(s, step, k);
        OnRecordTracked(false, s.packages, name, s.files, payload, inUse, a);
        CleanTwice(a.target);
      }
    }
  }

  lemma Usurper(s: State, step: Step, k: Path) returns (a: Artifact)
    requires Usurps(s, step, k)
    ensures a in step.payload && Clean(a.target) == k && (Contains(FilesOf(s.packages, step.name), a.target) || ReferencedByOther(s.packages, step.name, a.target))
  {
    hide Clean, Contains, ReferencedByOther;
    a :| a in step.payload && Clean(a.target) == k && (Contains(FilesOf(s.packages, step.name), a.target) || ReferencedByOther(s.packages, step.name, a.target));
  }

  /** Where case tells files apart, a step never deletes a file that no record lists.
      It leaves it as it is and unlisted unless it installs it while a record has a
      case variant of it; and if it does and succeeds, the file is listed. */
  lemma StepUnlisted(s: State, step: Step, k: Path)
    requires k in s.files && !Listed(s.packages, k)
    ensures
      var after := Apply(false, s, step);
      && k in after.files
      && (!Usurps(s, step, k) ==> after.files[k] == s.files[k] && !Listed(after.packages, k))
      && (Usurps(s, step, k) ==> step.Install? && (Installable(false, s.packages, step.name, s.files, step.payload, step.inUse) ==> Listed(after.packages, k)))
  {
    hide Apply, NamedBy, Clean, FoldPath, Key, Deletable, Listed, Usurps, Installable;
    StepFrame(false, s, step, k);
    NotDeleted(s, step.name, k);
    if step.Install? {
      StepLists(s, step, k);
      if !Usurps(s, step, k) && NamedBy(FilesOf(s.packages, step.name), k) { NotChanged(s, step, k); }
    } else {
      FewerListed(s, step, k);
    }
  }

  lemma FewerListed(s: State, step: Step, k: Path)
    requires step.Remove? && !Listed(s.packages, k)
    ensures !Listed(Apply(false, s, step).packages, k) && !Usurps(s, step, k)
  {
    hide Lists;
  }

  /** No step of the run installs the file while a record has a variant of it. */
  ghost predicate NeverUsurped(s: State, steps: seq<Step>, k: Path)
    decreases |steps|
  {
    steps == [] || (!Usurps(s, steps[0], k) && NeverUsurped(Apply(false, s, steps[0]), steps[1..], k))
  }

  /** No record lists the file at any point of the run. */
  ghost predicate NeverListed(s: State, steps: seq<Step>, k: Path)
    decreases |steps|
  {
    !Listed(s.packages, k) && (steps == [] || NeverListed(Apply(false, s, steps[0]), steps[1..], k))
  }

  /** Every install of the run succeeds. */
  ghost predicate Succeeds(s: State, steps: seq<Step>)
    decreases |steps|
  {
    steps == [] ||
    (&& (steps[0].Install? ==> Installable(false, s.packages, steps[0].name, s.files, steps[0].payload, steps[0].inUse))
     && Succeeds(Apply(false, s, steps[0]), steps[1..]))
  }

  /** Over any run, failing steps included: a file that no record lists is neither
      changed nor deleted nor put on record unless a step installs it while a record
      has a variant of it; and when the installs succeed, exactly then it is put on
      record. */
  lemma {:induction false} UnlistedSafe(s: State, steps: seq<Step>, k: Path)
    requires k in s.files && !Listed(s.packages, k)
    ensures NeverUsurped(s, steps, k) ==>
      var after := Run(false, s, steps);
      k in after.files && after.files[k] == s.files[k] && NeverListed(s, steps, k) && !Listed(after.packages, k)
    ensures Succeeds(s, steps) ==> (NeverListed(s, steps, k) <==> NeverUsurped(s, steps, k))
    decreases |steps|
  {
    hide Apply, Listed, Usurps, Installable;
    if steps != [] {
      var after := Apply(false, s, steps[0]);
      StepUnlisted(s, steps[0], k);
      if !Listed(after.packages, k) { UnlistedSafe(after, steps[1..], k); }
    }
  }

  /** No two of these names differ in case only. */
  ghost predicate Apart(names: set<Path>) {
    forall p, q :: p in names && q in names && FoldPath(p) == FoldPath(q) ==> p == q
  }

  ghost predicate RecordsIn(packages: Packages, names: set<Path>) {
    forall n, f :: n in packages && f in packages[n].files ==> Clean(f.path) in names
  }

  ghost predicate TargetsIn(steps: seq<Step>, names: set<Path>) {
    forall i, a :: 0 <= i < |steps| && steps[i].Install? && a in steps[i].payload ==> Clean(a.target) in names
  }

  lemma ApartUnusurped(s: State, step: Step, names: set<Path>, k: Path)
    requires Apart(names) && RecordsIn(s.packages, names) && !Listed(s.packages, k)
    requires step.Install? ==> forall a :: a in step.payload ==> Clean(a.target) in names
    ensures !Usurps(s, step, k)
  {
    hide Clean, FoldPath;
  }

  lemma StepRecordsIn(s: State, step: Step, names: set<Path>)
    requires RecordsIn(s.packages, names) && (step.Install? ==> forall a :: a in step.payload ==> Clean(a.target) in names)
    ensures RecordsIn(Apply(false, s, step).packages, names)
  {
    hide Clean, InstallAll;
    if step.Install? {
      var o := InstallAll(false, s.packages, step.name, s.files, step.payload, step.inUse);
      if o.failure.None? {
        InstallAllReadable(false, s.packages, step.name, s.files, step.payload, step.inUse);
        forall f | f in Recorded(false, o.files, o.tracked)
          ensures Clean(f.path) in names
        {
          TrackedTarget(s, step, f.path);
        }
      }
    }
  }

  lemma TrackedTarget(s: State, step: Step, t: Path)
    requires step.Install? && t in InstallAll(false, s.packages, step.name, s.files, step.payload, step.inUse).tracked
    ensures exists a :: a in step.payload && Clean(a.target) == Clean(t)
  {
    hide Clean, InstallAll;
    TrackedTrackable(false, s.packages, step.name, s.files, step.payload, step.inUse, t);
  }

  /** Where no two recorded paths or targets differ in case only, a file that no
      record lists is safe from every run. */
  lemma {:induction false} ApartSafe(s: State, steps: seq<Step>, names: set<Path>, k: Path)
    requires k in s.files && !Listed(s.packages, k)
    requires Apart(names) && RecordsIn(s.packages, names) && TargetsIn(steps, names)
    ensures
      var after := Run(false, s, steps);
      k in after.files && after.files[k] == s.files[k] && NeverUsurped(s, steps, k) && !Listed(after.packages, k)
    decreases |steps|
  {
    hide Apply, Listed, Usurps, Apart, RecordsIn, Clean;
    if steps != [] {
      ApartUnusurped(s, steps[0], names, k);
      StepUnlisted(s, steps[0], k);
      StepRecordsIn(s, steps[0], names);
      ApartSafe(Apply(false, s, steps[0]), steps[1..], names, k);
    }
  }

  /** strings.ToLower leaves the character as it is, over ASCII and Latin-1 with their
      partners. */
  predicate IsLower(c: char) {
    && !('A' <= c <= 'Z') && !('\U{00C0}' <= c <= '\U{00DE}' && c != '\U{00D7}')
    && c != '\U{212A}' && c != '\U{212B}' && c != '\U{0178}' && c != '\U{1E9E}' && c != '\U{039C}'
  }

  /** The two lower-case letters that fold to another one. */
  predicate IsVariant(c: char) { c == '\U{017F}' || c == '\U{03BC}' }

  predicate LowerPath(p: Path) {
    forall i, j :: 0 <= i < |p| && 0 <= j < |p[i]| ==> IsLower(p[i][j]) && !IsVariant(p[i][j])
  }

  lemma LowerFolds(p: Path)
    requires LowerPath(p)
    ensures FoldPath(p) == p
  {
    forall i | 0 <= i < |p|
      ensures Fold(p[i]) == p[i]
    {
      assert forall j :: 0 <= j < |p[i]| ==> FoldChar(p[i][j]) == p[i][j];
    }
  }

  /** Lower-case names without those two letters do not differ in case. */
  lemma LowerApart(names: set<Path>)
    requires forall p :: p in names ==> LowerPath(p)
    ensures Apart(names)
  {
    hide FoldPath, LowerPath;
    forall p, q | p in names && q in names && FoldPath(p) == FoldPath(q)
      ensures p == q
    {
      LowerFolds(p);
      LowerFolds(q);
    }
  }

  // ----- files of another package -----

  /** While a package is left alone, the files its record names are not deleted. */
  lemma {:induction false} OwnerSafe(windows: bool, s: State, steps: seq<Step>, owner: string, k: Path)
    requires k in s.files && owner in s.packages && NamedBy(s.packages[owner].files, k)
    requires forall i :: 0 <= i < |steps| ==> steps[i].name != owner
    ensures
      var after := Run(windows, s, steps);
      k in after.files && owner in after.packages && after.packages[owner] == s.packages[owner]
    decreases |steps|
  {
    hide NamedBy, Key;
    if steps != [] {
      var after := Apply(windows, s, steps[0]);
      StepOwner(windows, s, steps[0], owner);
      StepFrame(windows, s, steps[0], k);
      if k !in after.files { DeletableNamed(windows, s, steps[0].name, k); }
      OwnerSafe(windows, after, steps[1..], owner, k);
    }
  }

  lemma StepOwner(windows: bool, s: State, step: Step, owner: string)
    requires owner in s.packages && step.name != owner
    ensures owner in Apply(windows, s, step).packages && Apply(windows, s, step).packages[owner] == s.packages[owner]
  {
  }
}
