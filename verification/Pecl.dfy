/** Ownership of the files of PECL packages: what one install or removal does to the
    files under the install root and to the recorded packages. */
module Pecl {
  import opened Text

  // ----- paths -----

  /** A path under the install root, as the list of its elements. */
  type Path = seq<string>

  function Push(stack: Path, e: string): Path {
    if e == "" || e == "." then stack
    else if e == ".." && stack != [] && stack[|stack| - 1] != ".." then stack[..|stack| - 1]
    else stack + [e]
  }

  function CleanOnto(stack: Path, p: Path): Path
    decreases |p|
  {
    if p == [] then stack else CleanOnto(Push(stack, p[0]), p[1..])
  }

  /** filepath.Clean of a relative path. */
  function Clean(p: Path): Path { CleanOnto([], p) }

  /** One of the characters that strings.EqualFold takes for the same, over ASCII and
      Latin-1. */
  function FoldChar(c: char): char {
    if 'A' <= c <= 'Z' || ('\U{00C0}' <= c <= '\U{00DE}' && c != '\U{00D7}') then (c as int + 32) as char
    else if c == '\U{017F}' then 's'
    else if c == '\U{212A}' then 'k'
    else if c == '\U{212B}' then '\U{00E5}'
    else if c == '\U{0178}' then '\U{00FF}'
    else if c == '\U{1E9E}' then '\U{00DF}'
    else if c == '\U{039C}' || c == '\U{03BC}' then '\U{00B5}'
    else c
  }

  function Fold(s: string): (r: string)
    ensures |r| == |s|
    ensures forall i :: 0 <= i < |s| ==> r[i] == FoldChar(s[i])
  {
    seq(|s|, i requires 0 <= i < |s| => FoldChar(s[i]))
  }

  function FoldPath(p: Path): (r: Path)
    ensures |r| == |p|
  {
    seq(|p|, i requires 0 <= i < |p| => Fold(p[i]))
  }

  /** The file that a path denotes: on Windows names do not depend on case. */
  function Key(windows: bool, p: Path): Path {
    if windows then FoldPath(Clean(p)) else Clean(p)
  }

  predicate Escapes(p: Path) { Clean(p) != [] && Clean(p)[0] == ".." }

  /** How records compare paths, on every system. */
  predicate SamePath(p: Path, q: Path) { FoldPath(Clean(p)) == FoldPath(Clean(q)) }

  predicate IsClean(p: Path) {
    forall i :: 0 <= i < |p| ==> p[i] != "" && p[i] != "." && (p[i] == ".." ==> forall j :: 0 <= j < i ==> p[j] == "..")
  }

  lemma {:induction false} CleanOntoClean(stack: Path, p: Path)
    requires IsClean(stack)
    ensures IsClean(CleanOnto(stack, p))
    decreases |p|
  {
    if p != [] { CleanOntoClean(Push(stack, p[0]), p[1..]); }
  }

  lemma {:induction false} CleanOntoSame(stack: Path, p: Path)
    requires IsClean(stack + p)
    ensures CleanOnto(stack, p) == stack + p
    decreases |p|
  {
    if p == [] {
      assert stack + p == stack;
    } else {
      var s := stack + p;
      assert s[|stack|] == p[0];
      if stack != [] { assert s[|stack| - 1] == stack[|stack| - 1]; }
      assert Push(stack, p[0]) == stack + [p[0]];
      assert stack + [p[0]] + p[1..] == s;
      CleanOntoSame(stack + [p[0]], p[1..]);
    }
  }

  lemma CleanTwice(p: Path)
    ensures Clean(Clean(p)) == Clean(p)
  {
    CleanOntoClean([], p);
    assert [] + Clean(p) == Clean(p);
    CleanOntoSame([], Clean(p));
  }

  predicate OneOf(c: char, x: char, y: char, z: char) { c == x || c == y || c == z }

  /** c and d are one letter: capital and small, over ASCII and Latin-1, or one of the
      letters that fold into these from elsewhere. */
  predicate SameLetter(c: char, d: char) {
    || (('A' <= c <= 'Z' || ('\U{00C0}' <= c <= '\U{00DE}' && c != '\U{00D7}')) && d as int == c as int + 32)
    || (OneOf(c, 's', 'S', '\U{017F}') && OneOf(d, 's', 'S', '\U{017F}'))
    || (OneOf(c, 'k', 'K', '\U{212A}') && OneOf(d, 'k', 'K', '\U{212A}'))
    || (OneOf(c, '\U{00E5}', '\U{00C5}', '\U{212B}') && OneOf(d, '\U{00E5}', '\U{00C5}', '\U{212B}'))
    || (OneOf(c, '\U{00B5}', '\U{039C}', '\U{03BC}') && OneOf(d, '\U{00B5}', '\U{039C}', '\U{03BC}'))
    || (c == '\U{0178}' && d == '\U{00FF}')
    || (c == '\U{1E9E}' && d == '\U{00DF}')
  }

  lemma FoldsAlike(c: char, d: char)
    ensures FoldChar(c) == FoldChar(d) <==> c == d || SameLetter(c, d) || SameLetter(d, c)
  {
    hide FoldChar, SameLetter;
    if SameLetter(c, d) || SameLetter(d, c) { SameFolds(c, d); }
    if FoldChar(c) == FoldChar(d) && c != d {
      if FoldChar(c) == c { CapitalFolds(d); } else if FoldChar(d) == d { CapitalFolds(c); } else { BothFold(c, d); }
    }
  }

  lemma SameFolds(c: char, d: char)
    requires SameLetter(c, d) || SameLetter(d, c)
    ensures FoldChar(c) == FoldChar(d)
  {
  }

  lemma CapitalFolds(c: char)
    requires FoldChar(c) != c
    ensures SameLetter(c, FoldChar(c))
  {
  }

  lemma BothFold(c: char, d: char)
    requires FoldChar(c) == FoldChar(d) && c != d && FoldChar(c) != c && FoldChar(d) != d
    ensures SameLetter(c, d)
  {
  }

  predicate SameWord(s: string, t: string) {
    |s| == |t| && forall j :: 0 <= j < |s| ==> s[j] == t[j] || SameLetter(s[j], t[j]) || SameLetter(t[j], s[j])
  }

  /** The records take two paths for the same exactly when they have the same letters. */
  lemma SameLetters(p: Path, q: Path)
    ensures SamePath(p, q) <==> |Clean(p)| == |Clean(q)| && forall i :: 0 <= i < |Clean(p)| ==> SameWord(Clean(p)[i], Clean(q)[i])
  {
    hide Clean, Fold, SameWord;
    var a, b := Clean(p), Clean(q);
    if |a| == |b| {
      forall i | 0 <= i < |a|
        ensures FoldPath(a)[i] == FoldPath(b)[i] <==> SameWord(a[i], b[i])
      {
        SameLettered(a[i], b[i]);
      }
    }
  }

  lemma SameLettered(s: string, t: string)
    ensures Fold(s) == Fold(t) <==> SameWord(s, t)
  {
    hide FoldChar, SameLetter;
    if |s| == |t| {
      forall j | 0 <= j < |s|
        ensures Fold(s)[j] == Fold(t)[j] <==> s[j] == t[j] || SameLetter(s[j], t[j]) || SameLetter(t[j], s[j])
      {
        FoldsAlike(s[j], t[j]);
      }
      assert Fold(s) == Fold(t) <==> forall j :: 0 <= j < |s| ==> Fold(s)[j] == Fold(t)[j];
    }
  }

  lemma FoldTwice(p: Path)
    ensures FoldPath(FoldPath(p)) == FoldPath(p)
  {
    forall i | 0 <= i < |p|
      ensures Fold(Fold(p[i])) == Fold(p[i])
    {
      assert forall j :: 0 <= j < |p[i]| ==> FoldChar(FoldChar(p[i][j])) == FoldChar(p[i][j]);
    }
  }

  /** Two paths of one file are the same to the records. */
  lemma KeySame(windows: bool, p: Path, q: Path)
    ensures Key(windows, Clean(p)) == Key(windows, p) && Escapes(Clean(p)) == Escapes(p) && SamePath(Clean(p), p)
    ensures FoldPath(Key(windows, p)) == FoldPath(Clean(p))
    ensures Key(windows, p) == Key(windows, q) ==> SamePath(p, q)
  {
    hide Clean;
    CleanTwice(p);
    FoldTwice(Clean(p));
    FoldTwice(Clean(q));
  }

  // ----- the state -----

  /** SHA-256, taken as injective. */
  datatype Digest = Digest(of: string)

  /** What a path denotes: a file, or something that cannot be read or replaced. */
  datatype Entry = File(contents: string) | Other

  datatype RecordedFile = RecordedFile(path: Path, digest: Digest)

  datatype Package = Package(version: string, extension: string, zend: bool, files: seq<RecordedFile>)

  type Files = map<Path, Entry>
  type Packages = map<string, Package>

  datatype State = State(files: Files, packages: Packages)

  /** A file of the payload; companions may be shared, the module may not. */
  datatype Artifact = Artifact(target: Path, contents: string, shared: bool)

  datatype PeclError = OutsideRoot | Unreadable | InUse | RefusesOverwrite | RefusesAdopt

  /** The files of a package's record; a missing record has none. */
  function FilesOf(packages: Packages, name: string): seq<RecordedFile> {
    if name in packages then packages[name].files else []
  }

  predicate Contains(files: seq<RecordedFile>, path: Path) {
    exists f :: f in files && SamePath(f.path, path)
  }

  predicate ReferencedByOther(packages: Packages, name: string, path: Path) {
    exists n :: n in packages && n != name && Contains(packages[n].files, path)
  }

  /** The file is there with the contents that the record knows. */
  predicate Matches(windows: bool, files: Files, f: RecordedFile) {
    var k := Key(windows, f.path);
    k in files && files[k].File? && Digest(files[k].contents) == f.digest
  }

  // ----- install -----

  function Copied(files: Files, k: Path, contents: string, inUse: set<Path>): Result<Files, PeclError> {
    if k in inUse || (k in files && files[k].Other?) then Err(InUse) else Ok(files[k := File(contents)])
  }

  /** One artifact: whether it is tracked, and the files after it. */
  function InstallOne(windows: bool, packages: Packages, name: string, files: Files, a: Artifact, inUse: set<Path>): Result<(bool, Files), PeclError> {
    var k := Key(windows, a.target);
    if Escapes(a.target) then Err(OutsideRoot)
    else if k !in files || Contains(FilesOf(packages, name), a.target) then
      var copied := Copied(files, k, a.contents, inUse);
      if copied.Ok? then Ok((true, copied.value)) else Err(copied.error)
    else if files[k].Other? then Err(Unreadable)
    else if Digest(a.contents) != Digest(files[k].contents) then Err(RefusesOverwrite)
    else if a.shared then Ok((ReferencedByOther(packages, name, a.target), files))
    else Err(RefusesAdopt)
  }

  /** The files after a payload, the tracked paths, and why it stopped. */
  datatype Installed = Installed(files: Files, tracked: seq<Path>, failure: Option<PeclError>)

  function InstallAll(windows: bool, packages: Packages, name: string, files: Files, payload: seq<Artifact>, inUse: set<Path>): Installed
    decreases |payload|
  {
    if payload == [] then Installed(files, [], None)
    else
      var one := InstallOne(windows, packages, name, files, payload[0], inUse);
      if one.Err? then Installed(files, [], Some(one.error))
      else
        var rest := InstallAll(windows, packages, name, one.value.1, payload[1..], inUse);
        rest.(tracked := (if one.value.0 then [Clean(payload[0].target)] else []) + rest.tracked)
  }

  ghost predicate Readable(windows: bool, files: Files, tracked: seq<Path>) {
    forall t :: t in tracked ==> Key(windows, t) in files && files[Key(windows, t)].File?
  }

  ghost function Recorded(windows: bool, files: Files, tracked: seq<Path>): (r: seq<RecordedFile>)
    requires Readable(windows, files, tracked)
    ensures |r| == |tracked|
    ensures forall i :: 0 <= i < |tracked| ==> r[i] == RecordedFile(tracked[i], Digest(files[Key(windows, tracked[i])].contents))
  {
    seq(|tracked|, i requires 0 <= i < |tracked| => RecordedFile(tracked[i], Digest(files[Key(windows, tracked[i])].contents)))
  }

  /** A recorded file that may be deleted: no other package has it, and nobody changed it. */
  predicate Removable(windows: bool, files: Files, packages: Packages, name: string, f: RecordedFile) {
    !ReferencedByOther(packages, name, f.path) && !Escapes(f.path) && Matches(windows, files, f)
  }

  /** The files of the old record that an upgrade leaves behind. */
  function Superseded(windows: bool, files: Files, packages: Packages, name: string, was: seq<RecordedFile>, record: seq<RecordedFile>, inUse: set<Path>): set<Path> {
    set f | f in was && !Contains(record, f.path) && Removable(windows, files, packages, name, f) && Key(windows, f.path) !in inUse :: Key(windows, f.path)
  }

  // ----- removal -----

  /** The removal stops at this file. */
  predicate Blocks(windows: bool, files: Files, packages: Packages, name: string, f: RecordedFile, inUse: set<Path>) {
    var k := Key(windows, f.path);
    && !ReferencedByOther(packages, name, f.path)
    && (Escapes(f.path) || (k in files && (files[k].Other? || (Matches(windows, files, f) && k in inUse))))
  }

  function FirstBlock(windows: bool, files: Files, packages: Packages, name: string, record: seq<RecordedFile>, inUse: set<Path>): (n: nat)
    ensures n <= |record|
    ensures forall i :: 0 <= i < n ==> !Blocks(windows, files, packages, name, record[i], inUse)
    ensures n < |record| ==> Blocks(windows, files, packages, name, record[n], inUse)
  {
    hide Blocks;
    if record == [] || Blocks(windows, files, packages, name, record[0], inUse) then 0
    else 1 + FirstBlock(windows, files, packages, name, record[1..], inUse)
  }

  function Doomed(windows: bool, files: Files, packages: Packages, name: string, record: seq<RecordedFile>): set<Path> {
    set f | f in record && Removable(windows, files, packages, name, f) :: Key(windows, f.path)
  }

  lemma DoomedSnoc(windows: bool, files: Files, packages: Packages, name: string, record: seq<RecordedFile>, i: nat)
    requires i < |record|
    ensures Doomed(windows, files, packages, name, record[..i + 1]) ==
      Doomed(windows, files, packages, name, record[..i]) + if Removable(windows, files, packages, name, record[i]) then {Key(windows, record[i].path)} else {}
  {
  }

  lemma SupersededSnoc(windows: bool, files: Files, packages: Packages, name: string, was: seq<RecordedFile>, record: seq<RecordedFile>, inUse: set<Path>, i: nat)
    requires i < |was|
    ensures Superseded(windows, files, packages, name, was[..i + 1], record, inUse) ==
      Superseded(windows, files, packages, name, was[..i], record, inUse) +
      if !Contains(record, was[i].path) && Removable(windows, files, packages, name, was[i]) && Key(windows, was[i].path) !in inUse then {Key(windows, was[i].path)} else {}
  {
    hide Removable, Key, Contains;
    assert was[..i + 1] == was[..i] + [was[i]];
  }

  lemma NoneDoomed(windows: bool, files: Files, packages: Packages, name: string)
    ensures Doomed(windows, files, packages, name, []) == {}
  {
  }

  lemma NoneSuperseded(windows: bool, files: Files, packages: Packages, name: string, record: seq<RecordedFile>, inUse: set<Path>)
    ensures Superseded(windows, files, packages, name, [], record, inUse) == {}
  {
  }

  // ----- the methods -----

  /** peclRecordContainsPath */
  method RecordContainsPath(files: seq<RecordedFile>, path: Path) returns (found: bool)
    ensures found == Contains(files, path)
  {
    var i := 0;
    while i < |files|
      invariant i <= |files| && forall j :: 0 <= j < i ==> !SamePath(files[j].path, path)
    {
      if SamePath(files[i].path, path) { return true; }
      i := i + 1;
    }
    return false;
  }

  /** peclFileReferencedByOtherPackage */
  method FileReferencedByOtherPackage(packages: Packages, name: string, path: Path) returns (found: bool)
    ensures found == ReferencedByOther(packages, name, path)
  {
    hide Contains;
    var left := packages.Keys;
    while left != {}
      invariant left <= packages.Keys
      invariant forall n :: n in packages && n !in left && n != name ==> !Contains(packages[n].files, path)
    {
      var n :| n in left;
      left := left - {n};
      if n != name {
        found := RecordContainsPath(packages[n].files, path);
        if found { return; }
      }
    }
    return false;
  }

  class InstallRoot {
    const windows: bool
    var files: Files
    var packages: Packages

    constructor (windows: bool, files: Files, packages: Packages)
      ensures this.windows == windows && this.files == files && this.packages == packages
    {
      this.windows, this.files, this.packages := windows, files, packages;
    }

    /** copyPECLArtifact */
    method CopyArtifact(contents: string, k: Path, inUse: set<Path>) returns (failure: Option<PeclError>)
      modifies this`files
      ensures Copied(old(files), k, contents, inUse) == if failure.None? then Ok(files) else Err(failure.value)
      ensures failure.Some? ==> files == old(files)
    {
      if k in inUse || (k in files && files[k].Other?) { return Some(InUse); }
      files := files[k := File(contents)];
      return None;
    }

    /** installPECLArtifact */
    method InstallArtifact(a: Artifact, name: string, inUse: set<Path>) returns (r: Result<bool, PeclError>)
      modifies this`files
      ensures InstallOne(windows, packages, name, old(files), a, inUse) == if r.Ok? then Ok((r.value, files)) else Err(r.error)
      ensures r.Err? ==> files == old(files)
    {
      hide Contains, ReferencedByOther, Key, Escapes, Clean;
      if Escapes(a.target) { return Err(OutsideRoot); }
      var k := Key(windows, a.target);
      var failure;
      if k !in files {
        failure := CopyArtifact(a.contents, k, inUse);
        return if failure.None? then Ok(true) else Err(failure.value);
      }
      var ownedByPackage := RecordContainsPath(FilesOf(packages, name), a.target);
      var ownedByOther := FileReferencedByOtherPackage(packages, name, a.target);
      if ownedByPackage {
        failure := CopyArtifact(a.contents, k, inUse);
        return if failure.None? then Ok(true) else Err(failure.value);
      }
      if files[k].Other? { return Err(Unreadable); }
      if Digest(a.contents) != Digest(files[k].contents) { return Err(RefusesOverwrite); }
      if a.shared && ownedByOther { return Ok(true); }
      if a.shared { return Ok(false); }
      return Err(RefusesAdopt);
    }

    /** The payload, artifact by artifact. */
    method InstallPayload(payload: seq<Artifact>, name: string, inUse: set<Path>) returns (tracked: seq<Path>, failure: Option<PeclError>)
      modifies this`files
      ensures Installed(files, tracked, failure) == InstallAll(windows, packages, name, old(files), payload, inUse)
    {
      hide InstallOne, Clean;
      tracked := [];
      var i := 0;
      assert payload[0..] == payload;
      while i < |payload|
        invariant i <= |payload|
        invariant
          var rest := InstallAll(windows, packages, name, files, payload[i..], inUse);
          InstallAll(windows, packages, name, old(files), payload, inUse) == rest.(tracked := tracked + rest.tracked)
      {
        ghost var before := files;
        assert payload[i..][0] == payload[i] && payload[i..][1..] == payload[i + 1..];
        var r := InstallArtifact(payload[i], name, inUse);
        if r.Err? { return tracked, Some(r.error); }
        if r.value { tracked := tracked + [Clean(payload[i].target)]; }
        i := i + 1;
      }
      return tracked, None;
    }

    /** The record of the tracked artifacts. */
    method RecordFiles(tracked: seq<Path>) returns (record: seq<RecordedFile>)
      requires Readable(windows, files, tracked)
      ensures record == Recorded(windows, files, tracked)
    {
      hide Key;
      record := [];
      var i := 0;
      while i < |tracked|
        invariant i <= |tracked| && record == Recorded(windows, files, tracked)[..i]
      {
        assert tracked[i] in tracked;
        record := record + [RecordedFile(tracked[i], Digest(files[Key(windows, tracked[i])].contents))];
        i := i + 1;
      }
    }

    /** The old record's files that the new one does not have, except those in use. */
    method RemoveSuperseded(was: seq<RecordedFile>, record: seq<RecordedFile>, name: string, inUse: set<Path>)
      modifies this`files
      ensures files == old(files) - Superseded(windows, old(files), packages, name, was, record, inUse)
    {
      hide Contains, ReferencedByOther, Key, Escapes, Superseded;
      var i := 0;
      assert files - Superseded(windows, files, packages, name, was[..0], record, inUse) == files by { NoneSuperseded(windows, files, packages, name, record, inUse); }
      while i < |was|
        invariant i <= |was|
        invariant files == old(files) - Superseded(windows, old(files), packages, name, was[..i], record, inUse)
      {
        var f := was[i];
        SupersededSnoc(windows, old(files), packages, name, was, record, inUse, i);
        var kept := RecordContainsPath(record, f.path);
        var other := FileReferencedByOtherPackage(packages, name, f.path);
        var k := Key(windows, f.path);
        if !kept && !other && !Escapes(f.path) && Matches(windows, files, f) && k !in inUse {
          files := files - {k};
        }
        i := i + 1;
      }
      assert was[..|was|] == was;
    }

    /** installResolvedPECLExtension, from the payload on. */
    method Install(name: string, release: Package, payload: seq<Artifact>, inUse: set<Path>) returns (failure: Option<PeclError>)
      modifies this
      ensures (State(files, packages), failure) == InstallStep(windows, old(State(files, packages)), name, release, payload, inUse)
    {
      hide InstallAll, Superseded;
      var tracked;
      ghost var was := files;
      tracked, failure := InstallPayload(payload, name, inUse);
      if failure.Some? { return; }
      InstallAllReadable(windows, packages, name, was, payload, inUse);
      var record := RecordFiles(tracked);
      var before := FilesOf(packages, name);
      packages := packages[name := release.(files := record)];
      RemoveSuperseded(before, record, name, inUse);
    }

    /** RemovePECLExtension, from the record on; None when nothing is tracked. */
    method Remove(name: string, inUse: set<Path>) returns (r: Result<Option<Package>, PeclError>)
      modifies this
      ensures State(files, packages) == RemoveStep(windows, old(State(files, packages)), name, inUse)
      ensures name !in old(packages) <==> r == Ok(None)
      ensures name in old(packages) ==>
        (r == Ok(Some(old(packages)[name])) <==> forall f :: f in FilesOf(old(packages), name) ==> !Blocks(windows, old(files), old(packages), name, f, inUse))
    {
      hide Contains, ReferencedByOther, Key, Escapes, Doomed;
      if name !in packages { return Ok(None); }
      var record := packages[name].files;
      ghost var n := FirstBlock(windows, files, packages, name, record, inUse);
      var i := 0;
      assert record[..0] == [];
      NoneDoomed(windows, files, packages, name);
      while i < |record|
        invariant i <= n && packages == old(packages)
        invariant files == old(files) - Doomed(windows, old(files), packages, name, record[..i])
        invariant forall k :: k in old(files) && k !in files ==> old(files)[k].File? && k !in inUse
      {
        var f := record[i];
        DoomedSnoc(windows, old(files), old(packages), name, record, i);
        var k := Key(windows, f.path);
        var other := FileReferencedByOtherPackage(packages, name, f.path);
        if !other {
          if Escapes(f.path) { return Err(OutsideRoot); }
          if k in files {
            if files[k].Other? { return Err(Unreadable); }
            if Digest(files[k].contents) == f.digest {
              if k in inUse { return Err(InUse); }
              files := files - {k};
            }
          }
        }
        i := i + 1;
      }
      assert record[..|record|] == record;
      var removed := packages[name];
      packages := packages - {name};
      return Ok(Some(removed));
    }
  }

  // ----- one step -----

  ghost function InstallStep(windows: bool, s: State, name: string, release: Package, payload: seq<Artifact>, inUse: set<Path>): (State, Option<PeclError>) {
    var o := InstallAll(windows, s.packages, name, s.files, payload, inUse);
    if o.failure.Some? then (State(o.files, s.packages), o.failure)
    else
      InstallAllReadable(windows, s.packages, name, s.files, payload, inUse);
      var record := Recorded(windows, o.files, o.tracked);
      var packages := s.packages[name := release.(files := record)];
      (State(o.files - Superseded(windows, o.files, packages, name, FilesOf(s.packages, name), record, inUse), packages), None)
  }

  function RemoveStep(windows: bool, s: State, name: string, inUse: set<Path>): State {
    if name !in s.packages then s
    else
      var record := s.packages[name].files;
      var n := FirstBlock(windows, s.files, s.packages, name, record, inUse);
      var left := s.files - Doomed(windows, s.files, s.packages, name, record[..n]);
      State(left, if n < |record| then s.packages else s.packages - {name})
  }

  // ----- what a payload does to one file -----

  /** The record names this file, up to case. */
  predicate NamedBy(files: seq<RecordedFile>, k: Path) {
    exists f :: f in files && FoldPath(Clean(f.path)) == FoldPath(k)
  }

  predicate Targeted(windows: bool, payload: seq<Artifact>, k: Path) {
    exists a :: a in payload && Key(windows, a.target) == k
  }

  lemma NamedByKey(windows: bool, files: seq<RecordedFile>, p: Path)
    ensures Contains(files, p) <==> NamedBy(files, Key(windows, p))
  {
    KeySame(windows, p, p);
  }

  /** One artifact leaves every other file alone, and changes an existing file only if
      the package owns it. */
  lemma OneArtifact(windows: bool, packages: Packages, name: string, files: Files, a: Artifact, inUse: set<Path>, k: Path)
    requires InstallOne(windows, packages, name, files, a, inUse).Ok?
    ensures
      var (tracked, after) := InstallOne(windows, packages, name, files, a, inUse).value;
      if k != Key(windows, a.target) then k in after <==> k in files
      else
        && k in after && after[k].File?
        && (tracked || after == files)
        && (if k !in files || NamedBy(FilesOf(packages, name), k) then tracked && after[k] == File(a.contents) else after[k] == files[k] && after[k] == File(a.contents))
    ensures k in files && k != Key(windows, a.target) ==> InstallOne(windows, packages, name, files, a, inUse).value.1[k] == files[k]
  {
    NamedByKey(windows, FilesOf(packages, name), a.target);
    hide Key, Clean, Contains, NamedBy, Escapes, ReferencedByOther;
  }

  /** Nothing is deleted, and only owned files are changed, even if the payload fails. */
  lemma {:induction false} PayloadKeeps(windows: bool, packages: Packages, name: string, files: Files, payload: seq<Artifact>, inUse: set<Path>, k: Path)
    requires k in files
    ensures
      var o := InstallAll(windows, packages, name, files, payload, inUse);
      && k in o.files && (files[k].File? ==> o.files[k].File?)
      && (o.files[k] == files[k] || (NamedBy(FilesOf(packages, name), k) && exists a :: a in payload && Key(windows, a.target) == k && o.files[k] == File(a.contents)))
    decreases |payload|
  {
    hide Key, NamedBy, InstallOne, Clean;
    if payload != [] && InstallOne(windows, packages, name, files, payload[0], inUse).Ok? {
      OneArtifact(windows, packages, name, files, payload[0], inUse, k);
      var after := InstallOne(windows, packages, name, files, payload[0], inUse).value.1;
      PayloadKeeps(windows, packages, name, after, payload[1..], inUse, k);
    }
  }

  lemma {:induction false} InstallAllReadable(windows: bool, packages: Packages, name: string, files: Files, payload: seq<Artifact>, inUse: set<Path>)
    ensures
      var o := InstallAll(windows, packages, name, files, payload, inUse);
      Readable(windows, o.files, o.tracked)
    decreases |payload|
  {
    hide Key, NamedBy, InstallOne, Clean;
    if payload != [] && InstallOne(windows, packages, name, files, payload[0], inUse).Ok? {
      var k := Key(windows, payload[0].target);
      OneArtifact(windows, packages, name, files, payload[0], inUse, k);
      KeySame(windows, payload[0].target, []);
      var after := InstallOne(windows, packages, name, files, payload[0], inUse).value.1;
      PayloadKeeps(windows, packages, name, after, payload[1..], inUse, k);
      InstallAllReadable(windows, packages, name, after, payload[1..], inUse);
    }
  }
}
