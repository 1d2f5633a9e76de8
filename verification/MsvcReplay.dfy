/** Replaying a captured toolchain on the environment that it was captured from. */
module MsvcReplay {
  import opened Text
  import opened PathLists
  import opened Msvc

  // ----- names -----

  /** PATH, in any case. */
  predicate PathName(n: string) { AnyCase(n, "path", "PATH") }

  /** The variables that hold lists, in any case. */
  predicate ListName(n: string) {
    || PathName(n) || AnyCase(n, "include", "INCLUDE") || AnyCase(n, "lib", "LIB") || AnyCase(n, "libpath", "LIBPATH")
    || AnyCase(n, "external_include", "EXTERNAL_INCLUDE")
  }

  /** The variables that are not captured, in any case: the prompt, what the capture
      script sets itself, and everything that begins with two underscores. */
  predicate IgnoredName(n: string) {
    || AnyCase(n, "prompt", "PROMPT") || AnyCase(n, "polka_vcvarsall", "POLKA_VCVARSALL")
    || AnyCase(n, "polka_vcvars_arch", "POLKA_VCVARS_ARCH") || AnyCase(n, "polka_vcvars_args", "POLKA_VCVARS_ARGS")
    || (|n| >= 2 && n[0] == '_' && n[1] == '_')
  }

  lemma UpperSpelled(n: string, lower: string, upper: string)
    requires |lower| == |upper|
    requires forall i :: 0 <= i < |lower| ==> (lower[i] == '_' && upper[i] == '_') || ('a' <= lower[i] <= 'z' && upper[i] as int == lower[i] as int - 32)
    ensures Upper(n) == upper <==> AnyCase(n, lower, upper)
  {
    if Upper(n) == upper { assert forall i :: 0 <= i < |n| ==> UpperChar(n[i]) == Upper(n)[i]; }
  }

  lemma NamesSpelled(n: string)
    ensures Upper(n) == "PATH" <==> PathName(n)
    ensures Upper(n) in LISTS <==> ListName(n)
    ensures Ignored(n) <==> IgnoredName(n)
  {
    hide Upper, AnyCase, ListName, Ignored, IgnoredName;
    UpperSpelled(n, "path", "PATH");
    ListsSpelled(n);
    IgnoredSpelled(n);
  }

  lemma ListsSpelled(n: string)
    ensures Upper(n) in LISTS <==> ListName(n)
  {
    hide Upper, AnyCase;
    UpperSpelled(n, "path", "PATH");
    UpperSpelled(n, "include", "INCLUDE");
    UpperSpelled(n, "lib", "LIB");
    UpperSpelled(n, "libpath", "LIBPATH");
    UpperSpelled(n, "external_include", "EXTERNAL_INCLUDE");
  }

  lemma IgnoredSpelled(n: string)
    ensures Ignored(n) <==> IgnoredName(n)
  {
    hide Upper, AnyCase;
    UpperSpelled(n, "prompt", "PROMPT");
    ScriptSpelled(n);
    ArchSpelled(n);
    ArgsSpelled(n);
    Underscores(n);
  }

  lemma ScriptSpelled(n: string)
    ensures Upper(n) == "POLKA_VCVARSALL" <==> AnyCase(n, "polka_vcvarsall", "POLKA_VCVARSALL")
  {
    hide Upper, AnyCase;
    UpperSpelled(n, "polka_vcvarsall", "POLKA_VCVARSALL");
  }

  lemma ArchSpelled(n: string)
    ensures Upper(n) == "POLKA_VCVARS_ARCH" <==> AnyCase(n, "polka_vcvars_arch", "POLKA_VCVARS_ARCH")
  {
    hide Upper, AnyCase;
    UpperSpelled(n, "polka_vcvars_arch", "POLKA_VCVARS_ARCH");
  }

  lemma ArgsSpelled(n: string)
    ensures Upper(n) == "POLKA_VCVARS_ARGS" <==> AnyCase(n, "polka_vcvars_args", "POLKA_VCVARS_ARGS")
  {
    hide Upper, AnyCase;
    UpperSpelled(n, "polka_vcvars_args", "POLKA_VCVARS_ARGS");
  }

  lemma Underscores(n: string)
    ensures "__" <= n <==> |n| >= 2 && n[0] == '_' && n[1] == '_'
  {
  }

  /** Names are unique up to case, as in what `set` prints. */
  ghost predicate Unique(env: seq<string>) {
    forall i, j :: 0 <= i < j < |env| ==> Upper(KeyOf(env[i])) != Upper(KeyOf(env[j]))
  }

  /** Every line has a key and a value. */
  ghost predicate Dump(env: seq<string>) { forall e :: e in env ==> '=' in e }

  ghost predicate Has(env: seq<string>, n: string) { exists e :: e in env && Upper(KeyOf(e)) == Upper(n) }

  lemma {:induction false} LookupAt(env: seq<string>, e: string, n: string)
    requires Unique(env) && Dump(env) && e in env && Upper(KeyOf(e)) == Upper(n)
    ensures Lookup(true, env, n) == Some((KeyOf(e), ValueOf(e)))
  {
    hide Upper, Eq, KeyOf, ValueOf;
    if e != env[0] {
      var i :| 0 <= i < |env| && env[i] == e;
      assert env[1..][i - 1] == e;
      LookupAt(env[1..], e, n);
    }
  }

  lemma {:induction false} LookupNone(env: seq<string>, n: string)
    requires !Has(env, n)
    ensures Lookup(true, env, n) == None
  {
    hide Upper, Eq, KeyOf, ValueOf;
    if env != [] {
      assert env[0] in env;
      LookupNone(env[1..], n);
    }
  }

  lemma {:induction false} BaseAt(env: seq<string>, e: string)
    requires Unique(env) && e in env
    ensures Upper(KeyOf(e)) in Base(env) && Base(env)[Upper(KeyOf(e))] == ValueOf(e)
  {
    hide Upper, Eq, KeyOf, ValueOf;
    var n := |env| - 1;
    var i :| 0 <= i < |env| && env[i] == e;
    if i < n {
      assert env[..n][i] == e;
      BaseAt(env[..n], e);
    }
  }

  lemma {:induction false} BaseNone(env: seq<string>, u: string)
    requires u in Base(env)
    ensures exists e :: e in env && Upper(KeyOf(e)) == u
  {
    hide Upper, Eq, KeyOf, ValueOf;
    var n := |env| - 1;
    var last := env[n];
    assert last in env;
    if u != Upper(KeyOf(last)) { BaseNone(env[..n], u); }
  }

  /** The baseline that the difference is taken from is the one that programs read. */
  lemma BaseReads(env: seq<string>, n: string)
    requires Unique(env) && Dump(env)
    ensures Value(true, env, n) == if Upper(n) in Base(env) then Some(Base(env)[Upper(n)]) else None
  {
    hide Upper, Eq, KeyOf, ValueOf;
    if Has(env, n) {
      var e :| e in env && Upper(KeyOf(e)) == Upper(n);
      LookupAt(env, e, n);
      BaseAt(env, e);
    } else {
      LookupNone(env, n);
      if Upper(n) in Base(env) { BaseNone(env, Upper(n)); }
    }
  }

  // ----- the captured difference -----

  lemma {:induction false} DiffAt(form: string -> string, base: map<string, string>, captured: seq<string>, e: string)
    requires Unique(captured) && e in captured
    ensures
      var t := Diff(form, base, captured);
      && (Plain(base, e) ==> KeyOf(e) in t.plain && t.plain[KeyOf(e)] == ValueOf(e))
      && (Extends(form, base, e) ==> Upper(KeyOf(e)) in t.lists && t.lists[Upper(KeyOf(e))] == AddedTo(form, base, e))
  {
    hide Upper, Eq, KeyOf, ValueOf, AddedTo, Unchanged, Ignored;
    var n := |captured| - 1;
    var i :| 0 <= i < |captured| && captured[i] == e;
    if i < n {
      assert captured[..n][i] == e;
      DiffAt(form, base, captured[..n], e);
      assert Upper(KeyOf(captured[n])) != Upper(KeyOf(e));
    }
  }

  lemma {:induction false} DiffOnly(form: string -> string, base: map<string, string>, captured: seq<string>, k: string)
    ensures
      var t := Diff(form, base, captured);
      && (k in t.plain ==> exists e :: e in captured && Plain(base, e) && KeyOf(e) == k)
      && (k in t.lists ==> exists e :: e in captured && Extends(form, base, e) && Upper(KeyOf(e)) == k)
  {
    hide Upper, Eq, KeyOf, ValueOf, AddedTo, Unchanged, Ignored, Plain, Extends;
    if captured != [] {
      var n := |captured| - 1;
      DiffOnly(form, base, captured[..n], k);
      assert captured[n] in captured;
    }
  }

  // ----- the overlay -----

  /** Names that can be set one after another without meeting. */
  ghost predicate Apart(keys: seq<string>) {
    (forall k :: k in keys ==> '=' !in k) && forall i, j :: 0 <= i < j < |keys| ==> Upper(keys[i]) != Upper(keys[j])
  }

  lemma {:induction false} SetAllReads(env: seq<string>, plain: map<string, string>, keys: seq<string>, n: string)
    requires (forall k :: k in keys ==> k in plain) && Apart(keys)
    ensures (forall k :: k in keys ==> Upper(k) != Upper(n)) ==> Value(true, SetAll(true, env, plain, keys), n) == Value(true, env, n)
    ensures forall k :: k in keys && Upper(k) == Upper(n) ==> Value(true, SetAll(true, env, plain, keys), n) == Some(plain[k])
    decreases |keys|
  {
    hide Upper, Value, Replace;
    if keys != [] {
      var m := |keys| - 1;
      var k := keys[m];
      assert k in keys;
      SetAllReads(env, plain, keys[..m], n);
      ReplaceReads(true, SetAll(true, env, plain, keys[..m]), k, plain[k], false, n);
    }
  }

  /** What the list variable reads after the entries were prepended. */
  function Extended(added: seq<string>, was: Option<string>): string {
    Join(Trimmed(added + [if was.Some? then was.value else ""]), ";")
  }

  lemma PrependReads(env: seq<string>, key: string, added: seq<string>, n: string)
    requires '=' !in key
    ensures Value(true, PrependOne(true, env, key, added), n) ==
      if Upper(n) == Upper(key) then Some(Extended(added, Value(true, env, key))) else Value(true, env, n)
  {
    hide Upper, Replace, Join, Trimmed, KeyOf, ValueOf, Eq;
    LookupKey(env, key);
    var found := Lookup(true, env, key);
    var entryKey := if found.Some? && found.value.0 != "" then found.value.0 else key;
    var current := if found.Some? then found.value.1 else "";
    ReplaceReads(true, env, entryKey, Join(Trimmed(added + [current]), ";"), false, n);
  }

  lemma {:induction false} LookupKey(env: seq<string>, key: string)
    ensures
      var found := Lookup(true, env, key);
      found.Some? ==> Upper(found.value.0) == Upper(key) && '=' !in found.value.0
  {
    hide Upper, Eq, ValueOf, KeyOf;
    if env != [] {
      KeyClean(env[0]);
      LookupKey(env[1..], key);
    }
  }

  lemma {:induction false} PrependAllReads(env: seq<string>, lists: map<string, seq<string>>, keys: seq<string>, n: string)
    requires (forall k :: k in keys ==> k in lists) && Apart(keys)
    ensures (forall k :: k in keys ==> Upper(k) != Upper(n)) ==> Value(true, PrependAll(true, env, lists, keys), n) == Value(true, env, n)
    ensures forall k :: k in keys && Upper(k) == Upper(n) ==> Value(true, PrependAll(true, env, lists, keys), n) == Some(Extended(lists[k], Value(true, env, k)))
    decreases |keys|
  {
    hide Upper, Value, PrependOne, Extended;
    if keys != [] {
      var m := |keys| - 1;
      var k := keys[m];
      assert k in keys;
      PrependAllReads(env, lists, keys[..m], n);
      PrependAllReads(env, lists, keys[..m], k);
      PrependReads(PrependAll(true, env, lists, keys[..m]), k, lists[k], n);
    }
  }

  // ----- the replay -----

  /** The captured toolchain applied to its own baseline. */
  ghost function Replayed(form: string -> string, baseline: seq<string>, captured: seq<string>, setKeys: seq<string>, listKeys: seq<string>): seq<string>
    requires ReplayOrder(form, baseline, captured, setKeys, listKeys)
  {
    var t := Diff(form, Base(baseline), captured);
    PrependAll(true, SetAll(true, baseline, t.plain, setKeys), t.lists, listKeys)
  }

  ghost predicate ReplayOrder(form: string -> string, baseline: seq<string>, captured: seq<string>, setKeys: seq<string>, listKeys: seq<string>) {
    var t := Diff(form, Base(baseline), captured);
    Lists(setKeys, t.plain.Keys) && Lists(listKeys, ListKeys(true, t.lists))
  }

  /** The keys that are set, and the lists that are extended, are captured names. */
  lemma ReplayKeys(form: string -> string, baseline: seq<string>, captured: seq<string>, setKeys: seq<string>, listKeys: seq<string>)
    requires Unique(captured) && ReplayOrder(form, baseline, captured, setKeys, listKeys)
    ensures Apart(setKeys) && Apart(listKeys)
    ensures forall k :: k in setKeys ==> exists e :: e in captured && Plain(Base(baseline), e) && KeyOf(e) == k
    ensures forall k :: k in listKeys ==> exists e :: e in captured && Extends(form, Base(baseline), e) && Upper(KeyOf(e)) == k && k != "PATH"
  {
    hide Upper, Eq, KeyOf, ValueOf, AddedTo, Unchanged, Ignored, Plain, Extends, Diff;
    var base := Base(baseline);
    var t := Diff(form, base, captured);
    forall k | k in setKeys
      ensures '=' !in k && exists e :: e in captured && Plain(base, e) && KeyOf(e) == k
    {
      DiffOnly(form, base, captured, k);
      var e :| e in captured && Plain(base, e) && KeyOf(e) == k;
      KeyClean(e);
    }
    forall k | k in listKeys
      ensures '=' !in k && Upper(k) == k && k != "PATH" && exists e :: e in captured && Extends(form, base, e) && Upper(KeyOf(e)) == k
    {
      assert k in ListKeys(true, t.lists);
      DiffOnly(form, base, captured, k);
      var e :| e in captured && Extends(form, base, e) && Upper(KeyOf(e)) == k;
      KeyClean(e);
      UpperKey(KeyOf(e));
      UpperTwice(KeyOf(e));
    }
    forall i, j | 0 <= i < j < |setKeys|
      ensures Upper(setKeys[i]) != Upper(setKeys[j])
    {
      assert setKeys[i] in t.plain && setKeys[j] in t.plain;
      DiffOnly(form, base, captured, setKeys[i]);
      DiffOnly(form, base, captured, setKeys[j]);
      var d :| d in captured && Plain(base, d) && KeyOf(d) == setKeys[i];
      var e :| e in captured && Plain(base, e) && KeyOf(e) == setKeys[j];
      var x :| 0 <= x < |captured| && captured[x] == d;
      var y :| 0 <= y < |captured| && captured[y] == e;
      assert x != y;
    }
  }

  lemma SameEntry(captured: seq<string>, d: string, e: string)
    requires Unique(captured) && d in captured && e in captured && Upper(KeyOf(d)) == Upper(KeyOf(e))
    ensures d == e
  {
  }

  lemma PathUpper()
    ensures Upper("PATH") == "PATH"
  {
  }

  /** A captured plain variable reads its captured value. */
  lemma ReplayPlain(form: string -> string, baseline: seq<string>, captured: seq<string>, setKeys: seq<string>, listKeys: seq<string>, e: string)
    requires Unique(baseline) && Unique(captured) && Dump(baseline) && ReplayOrder(form, baseline, captured, setKeys, listKeys)
    requires e in captured && !IgnoredName(KeyOf(e)) && !ListName(KeyOf(e))
    ensures Value(true, Replayed(form, baseline, captured, setKeys, listKeys), KeyOf(e)) == Some(ValueOf(e))
  {
    hide Upper, Eq, KeyOf, ValueOf, AddedTo, Ignored, Diff, Unique, Dump, Value, Lookup, ListName, IgnoredName;
    var base, n := Base(baseline), KeyOf(e);
    NamesSpelled(n);
    var t := Diff(form, base, captured);
    ReplayKeys(form, baseline, captured, setKeys, listKeys);
    forall k | k in listKeys
      ensures Upper(k) != Upper(n)
    {
      var d :| d in captured && Extends(form, base, d) && Upper(KeyOf(d)) == k;
      UpperTwice(KeyOf(d));
    }
    var mid := SetAll(true, baseline, t.plain, setKeys);
    PrependAllReads(mid, t.lists, listKeys, n);
    SetAllReads(baseline, t.plain, setKeys, n);
    DiffAt(form, base, captured, e);
    BaseReads(baseline, n);
    if Unchanged(base, e) {
      forall k | k in setKeys
        ensures Upper(k) != Upper(n)
      {
        var d :| d in captured && Plain(base, d) && KeyOf(d) == k;
        if Upper(k) == Upper(n) { SameEntry(captured, d, e); }
      }
    } else {
      assert n in t.plain.Keys;
    }
  }

  /** What a name reads that no captured entry sets or extends. */
  lemma ReplayRest(form: string -> string, baseline: seq<string>, captured: seq<string>, setKeys: seq<string>, listKeys: seq<string>, n: string)
    requires Unique(captured) && ReplayOrder(form, baseline, captured, setKeys, listKeys)
    requires PathName(n) || forall e :: e in captured && Upper(KeyOf(e)) == Upper(n) ==> IgnoredName(KeyOf(e))
    ensures Value(true, Replayed(form, baseline, captured, setKeys, listKeys), n) == Value(true, baseline, n)
  {
    hide Upper, Eq, KeyOf, ValueOf, AddedTo, Ignored, Diff, Unique, Value, Lookup, PathName, IgnoredName;
    NamesSpelled(n);
    forall e | e in captured
      ensures Ignored(KeyOf(e)) <==> IgnoredName(KeyOf(e))
    {
      NamesSpelled(KeyOf(e));
    }
    var base := Base(baseline);
    var t := Diff(form, base, captured);
    ReplayKeys(form, baseline, captured, setKeys, listKeys);
    forall k | k in listKeys
      ensures Upper(k) != Upper(n)
    {
      var d :| d in captured && Extends(form, base, d) && Upper(KeyOf(d)) == k && k != "PATH";
      UpperTwice(KeyOf(d));
    }
    forall k | k in setKeys
      ensures Upper(k) != Upper(n)
    {
      var d :| d in captured && Plain(base, d) && KeyOf(d) == k;
    }
    PrependAllReads(SetAll(true, baseline, t.plain, setKeys), t.lists, listKeys, n);
    SetAllReads(baseline, t.plain, setKeys, n);
  }

  function OrEmpty(s: Option<string>): string { if s.Some? then s.value else "" }

  lemma UnchangedAdds(form: string -> string, base: map<string, string>, e: string)
    requires Unchanged(base, e)
    ensures AddedTo(form, base, e) == []
  {
    hide Entries, Upper, KeyOf, ValueOf;
    var was := Entries(ValueOf(e));
    assert forall x :: x in was ==> form(x) in Forms(form, was);
    NothingAdded(form, Forms(form, was), was);
  }

  /** A captured list variable other than PATH reads the added entries, in order, and
      then every entry of the baseline. */
  lemma ReplayList(form: string -> string, baseline: seq<string>, captured: seq<string>, setKeys: seq<string>, listKeys: seq<string>, e: string)
    requires Unique(baseline) && Unique(captured) && Dump(baseline) && ReplayOrder(form, baseline, captured, setKeys, listKeys)
    requires e in captured && !IgnoredName(KeyOf(e)) && ListName(KeyOf(e)) && !PathName(KeyOf(e))
    ensures
      var was := Entries(OrEmpty(Value(true, baseline, KeyOf(e))));
      Entries(OrEmpty(Value(true, Replayed(form, baseline, captured, setKeys, listKeys), KeyOf(e)))) == Added(form, Forms(form, was), Entries(ValueOf(e))) + was
  {
    hide Upper, Eq, KeyOf, ValueOf, Ignored, Diff, Unique, Dump, Value, Lookup, Entries, Added, Join, Trimmed, ListName, PathName, IgnoredName;
    var base, n := Base(baseline), KeyOf(e);
    NamesSpelled(n);
    var t := Diff(form, base, captured);
    var added := AddedTo(form, base, e);
    ReplayKeys(form, baseline, captured, setKeys, listKeys);
    var mid := SetAll(true, baseline, t.plain, setKeys);
    forall k | k in setKeys
      ensures Upper(k) != Upper(n)
    {
      var d :| d in captured && Plain(base, d) && KeyOf(d) == k;
    }
    SetAllReads(baseline, t.plain, setKeys, n);
    PrependAllReads(mid, t.lists, listKeys, n);
    DiffAt(form, base, captured, e);
    BaseReads(baseline, n);
    UpperTwice(n);
    var was := OrEmpty(Value(true, baseline, n));
    assert added == Added(form, Forms(form, Entries(was)), Entries(ValueOf(e)));
    if Extends(form, base, e) {
      var k := Upper(n);
      PathUpper();
      assert k in ListKeys(true, t.lists);
      SetAllReads(baseline, t.plain, setKeys, k);
      SameName(mid, k, n);
      AddedClean(form, Forms(form, Entries(was)), ValueOf(e));
      JoinEntries(added, was);
    } else {
      if Unchanged(base, e) { UnchangedAdds(form, base, e); }
      forall k | k in listKeys
        ensures Upper(k) != Upper(n)
      {
        var d :| d in captured && Extends(form, base, d) && Upper(KeyOf(d)) == k;
        UpperTwice(KeyOf(d));
        if Upper(k) == Upper(n) { SameEntry(captured, d, e); }
      }
      assert added + Entries(was) == Entries(was);
    }
  }

  lemma {:induction false} SameName(env: seq<string>, k: string, n: string)
    requires Upper(k) == Upper(n)
    ensures Value(true, env, k) == Value(true, env, n)
  {
    hide Upper, KeyOf, ValueOf;
    if env != [] { SameName(env[1..], k, n); }
  }

  lemma AddedClean(form: string -> string, seen: set<string>, value: string)
    ensures forall x :: x in Added(form, seen, Entries(value)) ==> Clean(x)
  {
    hide Clean, Entries;
    EntriesClean(value);
    AddedLaws(form, seen, Entries(value));
  }

  /** Every captured entry is covered, nothing was added that was there already, and
      nothing was added twice. */
  lemma ReplayCovers(form: string -> string, baseline: seq<string>, captured: seq<string>, setKeys: seq<string>, listKeys: seq<string>, e: string)
    requires Unique(baseline) && Unique(captured) && Dump(baseline) && ReplayOrder(form, baseline, captured, setKeys, listKeys)
    requires e in captured && !IgnoredName(KeyOf(e)) && ListName(KeyOf(e)) && !PathName(KeyOf(e))
    ensures
      var was := Entries(OrEmpty(Value(true, baseline, KeyOf(e))));
      var now := Entries(OrEmpty(Value(true, Replayed(form, baseline, captured, setKeys, listKeys), KeyOf(e))));
      var n := |now| - |was|;
      && n >= 0 && now[n..] == was && Subsequence(now[..n], Entries(ValueOf(e)))
      && (forall x :: x in Entries(ValueOf(e)) ==> form(x) in Forms(form, now))
      && (forall i, j :: 0 <= i < n && i < j < |now| ==> form(now[i]) != form(now[j]))
  {
    hide Upper, Eq, KeyOf, ValueOf, Ignored, Unique, Dump, Value, Entries, Added, ReplayOrder, Replayed, ListName, PathName, IgnoredName;
    ReplayList(form, baseline, captured, setKeys, listKeys, e);
    var was := Entries(OrEmpty(Value(true, baseline, KeyOf(e))));
    var now := Entries(OrEmpty(Value(true, Replayed(form, baseline, captured, setKeys, listKeys), KeyOf(e))));
    var seen := Forms(form, was);
    var added := Added(form, seen, Entries(ValueOf(e)));
    AddedLaws(form, seen, Entries(ValueOf(e)));
    AddedOrder(form, seen, Entries(ValueOf(e)));
    assert now[..|added|] == added && now[|added|..] == was;
    forall x | x in Entries(ValueOf(e))
      ensures form(x) in Forms(form, now)
    {
      assert forall y :: y in was || y in added ==> y in now;
    }
    forall i, j | 0 <= i < |added| && i < j < |now|
      ensures form(now[i]) != form(now[j])
    {
      assert now[i] == added[i] && added[i] in added;
      if j >= |added| { assert now[j] == was[j - |added|] && form(now[j]) in seen; }
    }
  }
}
