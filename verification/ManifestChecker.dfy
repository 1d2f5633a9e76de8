/** frameworkValueChecker: the depth-first check of a manifest's values.

    A named value is marked 1 while it is being visited and 2 when it is done.  The
    theorem is that the check accepts exactly when every expression is sound and no
    reference leads back to itself. */
module ManifestChecker {
  import opened Text
  import opened ManifestValues
  import Sets

  /** The bindings of one file action: its own values, and those of its updates. */
  datatype Action = Action(kind: string, values: seq<Binding>, updates: seq<seq<Binding>>)

  predicate IsLetter(c: char) { 'a' <= c <= 'z' || 'A' <= c <= 'Z' || c == '_' }

  /** validFrameworkVariable */
  predicate ValidVariable(key: string) {
    key != "" && forall i :: 0 <= i < |key| ==> IsLetter(key[i]) || (i > 0 && ('0' <= key[i] <= '9' || key[i] == '.'))
  }

  /** The names that newFrameworkValueChecker refuses. */
  predicate NamesOk(m: Manifest) {
    && (forall k :: k in m.runtime ==> ValidVariable(k)) && (forall k :: k in m.runtimeDatabase ==> ValidVariable(k))
    && m.runtime.Keys !! m.runtimeDatabase.Keys
  }

  ghost predicate ActionOk(m: Manifest, a: Action) {
    && (forall b :: b in a.values ==> (a.kind == "dotenv" ==> ValidVariable(b.key)) && Sound(m, b.value))
    && (forall u :: u in a.updates ==> forall b :: b in u ==> Sound(m, b.value))
  }

  /** Everything other than cycles that the check looks at. */
  ghost predicate Wellformed(m: Manifest, actions: seq<Action>) {
    && NamesOk(m) && (forall k :: k in Named(m) ==> Sound(m, Named(m)[k]))
    && forall a :: a in actions ==> ActionOk(m, a)
  }

  /** There is a reason to refuse that has to do with values. */
  ghost predicate Faulty(m: Manifest) {
    HasCycle(Named(m)) || exists k :: k in Named(m) && !Sound(m, Named(m)[k])
  }

  /** The marks, and the keys in the order in which they were finished. */
  ghost predicate Consistent(m: Manifest, state: map<string, int>, finished: seq<string>) {
    && state.Keys <= Named(m).Keys
    && (forall k :: k in state ==> state[k] == 1 || state[k] == 2)
    && (forall k :: k in finished <==> k in state && state[k] == 2)
    && Settled(m, finished)
  }

  /** The keys marked 1 are those of the path, on which each refers to the next. */
  ghost predicate InProgress(n: map<string, Value>, state: map<string, int>, path: seq<string>) {
    IsPath(n, path) && forall k :: k in path <==> k in state && state[k] == 1
  }

  /** Starting on a key. */
  lemma Start(m: Manifest, state: map<string, int>, finished: seq<string>, path: seq<string>, key: string)
    requires Consistent(m, state, finished) && InProgress(Named(m), state, path) && key in Named(m) && key !in state
    requires path == [] || (path[|path| - 1] in Named(m) && key in Refs(Named(m)[path[|path| - 1]]))
    ensures Consistent(m, state[key := 1], finished) && InProgress(Named(m), state[key := 1], path + [key])
  {
    hide Named, Refs, Settled, Sound;
    PathSnoc(Named(m), path, key);
  }

  /** Finishing the innermost key. */
  lemma Finish(m: Manifest, state: map<string, int>, finished: seq<string>, path: seq<string>, key: string)
    requires Consistent(m, state, finished) && InProgress(Named(m), state, path + [key]) && key in Named(m) && key !in path
    requires Sound(m, Named(m)[key]) && forall r :: r in Refs(Named(m)[key]) ==> r in finished
    ensures Consistent(m, state[key := 2], finished + [key]) && InProgress(Named(m), state[key := 2], path)
  {
    hide Named, Refs, Settled, Sound;
    SettledSnoc(m, finished, key);
    PathPrefix(Named(m), path, key);
    assert forall k :: k in path + [key] <==> k in path || k == key;
    assert forall k :: k in finished + [key] <==> k in finished || k == key;
  }

  lemma PathPrefix(n: map<string, Value>, path: seq<string>, key: string)
    requires IsPath(n, path + [key])
    ensures IsPath(n, path)
  {
    hide Refs;
    var p := path + [key];
    assert forall i :: 0 <= i < |path| ==> p[i] == path[i];
  }

  class ValueChecker {
    const manifest: Manifest
    const named: map<string, Value>
    /** 1 is in progress, 2 is done. */
    var state: map<string, int>
    /** The keys that are done, in the order in which they were finished. */
    ghost var finished: seq<string>

    ghost predicate Valid()
      reads this
    {
      named == Named(manifest) && Consistent(manifest, state, finished)
    }

    /** The keys in progress, outermost first: each refers to the next. */
    ghost predicate Stack(path: seq<string>)
      reads this
    {
      InProgress(named, state, path)
    }

    constructor (m: Manifest)
      ensures Valid() && Stack([]) && manifest == m && state == map[] && finished == []
    {
      manifest := m;
      named := Named(m);
      state := map[];
      finished := [];
    }

    /** No error: the expression and all below it are sound, and every key they refer
        to is finished.  An error: some value is faulty or on a cycle. */
    method Check(v: Value, ghost path: seq<string>) returns (r: Option<ValueError>)
      requires Valid() && Stack(path)
      requires path == [] || (path[|path| - 1] in named && Refs(v) <= Refs(named[path[|path| - 1]]))
      modifies this
      ensures old(state).Keys <= state.Keys
      ensures r.None? ==> Valid() && Stack(path) && old(finished) <= finished
      ensures r.None? ==> Sound(manifest, v) && forall k :: k in Refs(v) ==> k in finished
      ensures r.Some? ==> !Sound(manifest, v) || Faulty(manifest)
      decreases |named.Keys - state.Keys|, 1, v
    {
      hide *;
      ValidNamed();
      if !NodeOk(manifest, v) {
        NotSound(manifest, v, v);
        return Some(Refusal(manifest, v));
      }
      if v.from != "" && !IsDatabase(v.from) && !IsBuiltin(v.from) {
        NodeRef(manifest, v);
        OwnRef(v);
        r := Visit(v.from, path);
        if r.Some? { return; }
      }
      var children := Children(v);
      var i := 0;
      while i < |children|
        invariant i <= |children| && Valid() && Stack(path) && old(finished) <= finished && old(state).Keys <= state.Keys
        invariant v.from != "" && !IsDatabase(v.from) && !IsBuiltin(v.from) ==> v.from in finished
        invariant forall j :: 0 <= j < i ==> Checked(manifest, children[j], finished)
      {
        ghost var before := finished;
        ChildRefs(v, children[i]);
        Sets.Shrinks(named.Keys, old(state).Keys, state.Keys);
        r := Check(children[i], path);
        if r.Some? {
          NotSound(manifest, v, children[i]);
          return;
        }
        CheckedGrows(manifest, children, i, before, finished);
        i := i + 1;
      }
      AllChecked(manifest, v, finished);
      return None;
    }

    lemma ValidNamed()
      requires Valid()
      ensures named == Named(manifest) && state.Keys <= named.Keys
    {
    }

    /** No error: the key is finished.  A key that is in progress is refused, since the
        path from it back to itself is a cycle. */
    method Visit(key: string, ghost path: seq<string>) returns (r: Option<ValueError>)
      requires Valid() && Stack(path) && key in named
      requires path == [] || (path[|path| - 1] in named && key in Refs(named[path[|path| - 1]]))
      modifies this
      ensures old(state).Keys <= state.Keys
      ensures r.None? ==> Valid() && Stack(path) && old(finished) <= finished && key in finished
      ensures r.Some? ==> Faulty(manifest)
      decreases |named.Keys - state.Keys|, 0
    {
      hide Named, Settled, IsPath, Refs, Sound, HasCycle, Faulty, Consistent, InProgress, NodeOk;
      ValidNamed();
      MarkedKeys(path, key);
      if key in state && state[key] == 1 {
        CycleFound(named, path, key);
        IsFaulty(manifest);
        return Some(ReferenceCycle(key));
      }
      if key in state && state[key] == 2 { return None; }
      Sets.Marked(named.Keys, state.Keys, key);
      StartHere(path, key);
      ghost var before := state;
      state := state[key := 1];
      SnocLast(path, key);
      r := Check(named[key], path + [key]);
      if r.Some? {
        UnsoundFaulty(manifest, key);
        return;
      }
      FinishHere(path, key);
      state := state[key := 2];
      finished := finished + [key];
      return None;
    }

    /** What the marks say about a key. */
    lemma MarkedKeys(path: seq<string>, key: string)
      requires Valid() && Stack(path)
      ensures key in state ==> state[key] == 1 || state[key] == 2
      ensures key in state && state[key] == 1 ==> key in path && IsPath(named, path)
      ensures key in state && state[key] == 2 ==> key in finished
      ensures key !in state ==> key !in path
    {
    }

    lemma StartHere(path: seq<string>, key: string)
      requires Valid() && Stack(path) && key in named && key !in state
      requires path == [] || (path[|path| - 1] in named && key in Refs(named[path[|path| - 1]]))
      ensures Consistent(manifest, state[key := 1], finished) && InProgress(named, state[key := 1], path + [key])
    {
      hide Named, Settled, IsPath, Refs;
      Start(manifest, state, finished, path, key);
    }

    lemma FinishHere(path: seq<string>, key: string)
      requires Valid() && Stack(path + [key]) && key in named && key !in path
      requires Sound(manifest, named[key]) && forall r :: r in Refs(named[key]) ==> r in finished
      ensures Consistent(manifest, state[key := 2], finished + [key]) && InProgress(named, state[key := 2], path)
    {
      hide Named, Settled, IsPath, Refs, Sound;
      Finish(manifest, state, finished, path, key);
    }

    /** No error: every binding of the actions is sound with finished references, and
        dotenv actions use valid names. */
    method CheckActions(actions: seq<Action>) returns (r: Option<ValueError>)
      requires Valid() && Stack([])
      modifies this
      ensures r.None? ==> Valid() && Stack([]) && old(finished) <= finished
      ensures r.None? ==> forall a :: a in actions ==> ActionOk(manifest, a)
      ensures r.Some? ==> Faulty(manifest) || exists a :: a in actions && !ActionOk(manifest, a)
    {
      hide Named, Refs, Sound, Settled, HasCycle, ValidVariable;
      var i := 0;
      while i < |actions|
        invariant i <= |actions| && Valid() && Stack([]) && old(finished) <= finished
        invariant forall j :: 0 <= j < i ==> ActionOk(manifest, actions[j])
      {
        var action := actions[i];
        r := CheckBindings(action.values, action.kind == "dotenv");
        if r.Some? {
          assert Faulty(manifest) || !ActionOk(manifest, action);
          return;
        }
        var u := 0;
        while u < |action.updates|
          invariant u <= |action.updates| && Valid() && Stack([]) && old(finished) <= finished
          invariant forall j :: 0 <= j < u ==> forall b :: b in action.updates[j] ==> Sound(manifest, b.value)
        {
          r := CheckBindings(action.updates[u], false);
          if r.Some? {
            assert action.updates[u] in action.updates;
            assert Faulty(manifest) || !ActionOk(manifest, action);
            return;
          }
          u := u + 1;
        }
        i := i + 1;
      }
      return None;
    }

    method CheckBindings(bindings: seq<Binding>, names: bool) returns (r: Option<ValueError>)
      requires Valid() && Stack([])
      modifies this
      ensures r.None? ==> Valid() && Stack([]) && old(finished) <= finished
      ensures r.None? ==> forall b :: b in bindings ==> (names ==> ValidVariable(b.key)) && Sound(manifest, b.value)
      ensures r.Some? ==> Faulty(manifest) || exists b :: b in bindings && ((names && !ValidVariable(b.key)) || !Sound(manifest, b.value))
    {
      hide Named, Refs, Sound, Settled, HasCycle, ValidVariable;
      var i := 0;
      while i < |bindings|
        invariant i <= |bindings| && Valid() && Stack([]) && old(finished) <= finished
        invariant forall j :: 0 <= j < i ==> (names ==> ValidVariable(bindings[j].key)) && Sound(manifest, bindings[j].value)
      {
        var b := bindings[i];
        if names && !ValidVariable(b.key) { return Some(BadName(b.key)); }
        r := Check(b.value, []);
        if r.Some? {
          assert Faulty(manifest) || !Sound(manifest, b.value);
          return;
        }
        i := i + 1;
      }
      return None;
    }
  }

  /** Why a single expression is refused. */
  function Refusal(m: Manifest, v: Value): ValueError {
    if v.byEngine.Branches? && !(KeysOf(v.byEngine.list) <= ENGINES) then BadEngine
    else if v.format.Some? && !FormatOk(v.format.value) then BadFormat
    else if v.byEngine.Branches? && exists e :: e in m.engines && e !in KeysOf(v.byEngine.list) then MissingEngine
    else UnknownReference(v.from)
  }

  /** A binding that was checked: it is sound and what it refers to is done. */
  ghost predicate Checked(m: Manifest, v: Value, finished: seq<string>) {
    Sound(m, v) && forall k :: k in Refs(v) ==> k in finished
  }

  lemma CheckedGrows(m: Manifest, vs: seq<Value>, n: nat, before: seq<string>, after: seq<string>)
    requires n < |vs| && before <= after && (forall j :: 0 <= j < n ==> Checked(m, vs[j], before))
    requires Sound(m, vs[n]) && forall k :: k in Refs(vs[n]) ==> k in after
    ensures forall j :: 0 <= j < n + 1 ==> Checked(m, vs[j], after)
  {
  }

  lemma AllChecked(m: Manifest, v: Value, finished: seq<string>)
    requires NodeOk(m, v) && (v.from != "" && !IsDatabase(v.from) && !IsBuiltin(v.from) ==> v.from in finished)
    requires forall j :: 0 <= j < |Children(v)| ==> Checked(m, Children(v)[j], finished)
    ensures Sound(m, v) && forall k :: k in Refs(v) ==> k in finished
  {
  }

  lemma NotSound(m: Manifest, v: Value, c: Value)
    requires (c == v && !NodeOk(m, v)) || (c in Children(v) && !Sound(m, c))
      || (c in Children(v) && Faulty(m))
    ensures !Sound(m, v) || Faulty(m)
  {
  }

  lemma IsFaulty(m: Manifest)
    requires HasCycle(Named(m))
    ensures Faulty(m)
  {
  }

  lemma UnsoundFaulty(m: Manifest, key: string)
    requires key in Named(m) && (!Sound(m, Named(m)[key]) || Faulty(m))
    ensures Faulty(m)
  {
  }

  lemma SnocLast(path: seq<string>, key: string)
    ensures (path + [key])[|path + [key]| - 1] == key && path + [key] != []
  {
  }

  // ----- the invariant -----

  /** The finished keys are sound, and refer to keys finished before them. */
  ghost predicate Settled(m: Manifest, finished: seq<string>) {
    forall i :: 0 <= i < |finished| ==>
      && finished[i] in Named(m) && Sound(m, Named(m)[finished[i]])
      && forall r :: r in Refs(Named(m)[finished[i]]) ==> r in finished[..i]
  }

  lemma SettledSnoc(m: Manifest, finished: seq<string>, key: string)
    requires Settled(m, finished) && key in Named(m) && Sound(m, Named(m)[key])
    requires forall r :: r in Refs(Named(m)[key]) ==> r in finished
    ensures Settled(m, finished + [key])
  {
    hide Named, Sound, Refs;
    var f := finished + [key];
    forall i | 0 <= i < |f|
      ensures f[i] in Named(m) && Sound(m, Named(m)[f[i]]) && forall r :: r in Refs(Named(m)[f[i]]) ==> r in f[..i]
    {
      if i < |finished| { assert f[i] == finished[i] && f[..i] == finished[..i]; } else { assert f[..i] == finished; }
    }
  }

  lemma OwnRef(v: Value)
    requires v.from != "" && !IsDatabase(v.from) && !IsBuiltin(v.from)
    ensures v.from in Refs(v)
  {
  }

  lemma ChildRefs(v: Value, c: Value)
    requires c in Children(v)
    ensures Refs(c) <= Refs(v)
  {
  }

  lemma PathSnoc(n: map<string, Value>, path: seq<string>, key: string)
    requires IsPath(n, path) && key in n && (path == [] || key in Refs(n[path[|path| - 1]]))
    ensures IsPath(n, path + [key])
  {
    hide Refs;
  }

  /** Reaching a key in progress closes a cycle. */
  lemma CycleFound(n: map<string, Value>, path: seq<string>, key: string)
    requires IsPath(n, path) && key in path && key in Refs(n[path[|path| - 1]])
    ensures HasCycle(n)
  {
    hide Refs;
    var j :| 0 <= j < |path| && path[j] == key;
    PathSnoc(n, path, key);
    var p := (path + [key])[j..];
    assert forall i :: 0 <= i < |p| ==> p[i] == (path + [key])[j + i];
    assert IsPath(n, p) && p[0] == key == p[|p| - 1];
  }

  // ----- the whole check -----

  /** validateValues: every named value is visited, then the actions are checked. */
  method ValidateValues(m: Manifest, actions: seq<Action>) returns (r: Option<ValueError>)
    ensures r.None? <==> Wellformed(m, actions) && !HasCycle(Named(m))
    ensures r.None? ==> exists rank :: Ranked(Named(m), rank)
  {
    hide Named, Sound, Refs, HasCycle, ValidVariable, Settled, Ranked;
    r := CheckNames(m);
    if r.Some? { return; }
    var checker := new ValueChecker(m);
    var keys := checker.named.Keys;
    while keys != {}
      invariant checker.Valid() && checker.Stack([]) && checker.manifest == m && fresh(checker)
      invariant keys <= checker.named.Keys && forall k :: k in checker.named.Keys - keys ==> k in checker.finished
      decreases |keys|
    {
      var key :| key in keys;
      r := checker.Visit(key, []);
      if r.Some? {
        FaultyRefused(m, actions);
        return;
      }
      keys := keys - {key};
    }
    ghost var finished := checker.finished;
    AllSettled(m, finished);
    r := checker.CheckActions(actions);
    if r.Some? && Faulty(m) { FaultyRefused(m, actions); }
  }

  lemma FaultyRefused(m: Manifest, actions: seq<Action>)
    requires Faulty(m)
    ensures !(Wellformed(m, actions) && !HasCycle(Named(m)))
  {
  }

  /** newFrameworkValueChecker's checks on the names. */
  method CheckNames(m: Manifest) returns (r: Option<ValueError>)
    ensures r.None? <==> NamesOk(m)
  {
    hide ValidVariable;
    var keys := m.runtime.Keys + m.runtimeDatabase.Keys;
    while keys != {}
      invariant keys <= m.runtime.Keys + m.runtimeDatabase.Keys
      invariant forall k :: k in m.runtime.Keys + m.runtimeDatabase.Keys - keys ==> ValidVariable(k) && !(k in m.runtime && k in m.runtimeDatabase)
      decreases |keys|
    {
      var key :| key in keys;
      if !ValidVariable(key) { return Some(BadName(key)); }
      if key in m.runtime && key in m.runtimeDatabase { return Some(DuplicateName(key)); }
      keys := keys - {key};
    }
    return None;
  }

  function IndexOf(s: seq<string>, k: string): (i: nat)
    requires k in s
    ensures i < |s| && s[i] == k && forall j :: 0 <= j < i ==> s[j] != k
  {
    if s[0] == k then 0 else 1 + IndexOf(s[1..], k)
  }

  /** When every named value is finished, the order of finishing ranks them. */
  lemma AllSettled(m: Manifest, finished: seq<string>)
    requires Settled(m, finished) && forall k :: k in Named(m) ==> k in finished
    ensures (forall k :: k in Named(m) ==> Sound(m, Named(m)[k])) && !HasCycle(Named(m))
    ensures exists rank :: Ranked(Named(m), rank)
  {
    hide Named, Sound, Refs, HasCycle;
    var rank := map k | k in Named(m) :: IndexOf(finished, k);
    forall k | k in Named(m)
      ensures Sound(m, Named(m)[k])
      ensures forall r :: r in Refs(Named(m)[k]) ==> r in Named(m) && rank[r] < rank[k]
    {
      var i := IndexOf(finished, k);
      forall r | r in Refs(Named(m)[k])
        ensures r in Named(m) && rank[r] < rank[k]
      {
        assert r in finished[..i];
        var j :| 0 <= j < i && finished[j] == r;
        assert finished[j] in Named(m);
        assert IndexOf(finished, r) <= j;
      }
    }
    assert Ranked(Named(m), rank);
    RankedAcyclic(Named(m), rank);
  }
}
