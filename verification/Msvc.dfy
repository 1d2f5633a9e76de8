/** The MSVC toolchain: the difference between two environment dumps, and the overlay
    of that difference on an environment. */
module Msvc {
  import opened Text
  import opened PathLists

  // ----- entries -----

  /** The offset of the first '=', or the length. */
  function Eq(e: string): (n: nat)
    ensures n <= |e| && '=' !in e[..n] && (n < |e| ==> e[n] == '=')
    ensures '=' in e <==> n < |e|
  {
    if e == "" || e[0] == '=' then 0
    else
      var n := Eq(e[1..]);
      assert e[..n + 1] == [e[0]] + e[1..][..n];
      n + 1
  }

  /** strings.Cut(e, "=") */
  function KeyOf(e: string): string { e[..Eq(e)] }

  function ValueOf(e: string): string { if Eq(e) < |e| then e[Eq(e) + 1..] else "" }

  lemma {:induction false} EqAfter(key: string, value: string)
    requires '=' !in key
    ensures Eq(key + "=" + value) == |key|
  {
    if key != "" {
      assert (key + "=" + value)[1..] == key[1..] + "=" + value;
      EqAfter(key[1..], value);
    }
  }

  lemma EntryParts(key: string, value: string)
    requires '=' !in key
    ensures KeyOf(key + "=" + value) == key && ValueOf(key + "=" + value) == value && '=' in key + "=" + value
  {
    var e := key + "=" + value;
    EqAfter(key, value);
    assert e[|key|] == '=';
  }

  function UpperChar(c: char): char { if 'a' <= c <= 'z' then (c as int - 32) as char else c }

  /** strings.ToUpper */
  function Upper(s: string): (r: string)
    ensures |r| == |s|
  {
    seq(|s|, i requires 0 <= i < |s| => UpperChar(s[i]))
  }

  lemma UpperTwice(s: string)
    ensures Upper(Upper(s)) == Upper(s)
  {
  }

  lemma UpperKey(key: string)
    requires '=' !in key
    ensures '=' !in Upper(key)
  {
  }

  predicate EnvKeysEqual(windows: bool, left: string, right: string) {
    if windows then Upper(left) == Upper(right) else left == right
  }

  // ----- the environment -----

  function Lookup(windows: bool, env: seq<string>, key: string): Option<(string, string)> {
    if env == [] then None
    else if '=' in env[0] && EnvKeysEqual(windows, KeyOf(env[0]), key) then Some((KeyOf(env[0]), ValueOf(env[0])))
    else Lookup(windows, env[1..], key)
  }

  /** The value that a program reads under this name. */
  function Value(windows: bool, env: seq<string>, key: string): Option<string> {
    var found := Lookup(windows, env, key);
    if found.Some? then Some(found.value.1) else None
  }

  function Replace(windows: bool, env: seq<string>, key: string, value: string, replaced: bool): seq<string> {
    if env == [] then if replaced then [] else [key + "=" + value]
    else if '=' !in env[0] || !EnvKeysEqual(windows, KeyOf(env[0]), key) then [env[0]] + Replace(windows, env[1..], key, value, replaced)
    else if replaced then Replace(windows, env[1..], key, value, true)
    else [KeyOf(env[0]) + "=" + value] + Replace(windows, env[1..], key, value, true)
  }

  /** lookupEnvValue */
  method LookupEnvValue(windows: bool, env: seq<string>, key: string) returns (entryKey: string, entryValue: string, found: bool)
    ensures Lookup(windows, env, key) == if found then Some((entryKey, entryValue)) else None
    ensures !found ==> entryKey == "" && entryValue == ""
  {
    hide Upper, Eq;
    var i := 0;
    assert env[0..] == env;
    while i < |env|
      invariant i <= |env| && Lookup(windows, env[i..], key) == Lookup(windows, env, key)
    {
      assert env[i..][0] == env[i] && env[i..][1..] == env[i + 1..];
      if '=' in env[i] && EnvKeysEqual(windows, KeyOf(env[i]), key) { return KeyOf(env[i]), ValueOf(env[i]), true; }
      i := i + 1;
    }
    return "", "", false;
  }

  /** replaceEnvValue */
  method ReplaceEnvValue(windows: bool, env: seq<string>, key: string, value: string) returns (updated: seq<string>)
    ensures updated == Replace(windows, env, key, value, false)
  {
    hide Upper, Eq;
    updated := [];
    var replaced := false;
    var i := 0;
    assert env[0..] == env;
    while i < |env|
      invariant i <= |env|
      invariant updated + Replace(windows, env[i..], key, value, replaced) == Replace(windows, env, key, value, false)
    {
      assert env[i..][0] == env[i] && env[i..][1..] == env[i + 1..];
      if '=' !in env[i] || !EnvKeysEqual(windows, KeyOf(env[i]), key) {
        updated := updated + [env[i]];
      } else if !replaced {
        updated := updated + [KeyOf(env[i]) + "=" + value];
        replaced := true;
      }
      i := i + 1;
    }
    if !replaced { updated := updated + [key + "=" + value]; }
  }

  /** After a replacement the name reads the new value, once, and every other name
      reads what it read before. */
  lemma {:induction false} ReplaceReads(windows: bool, env: seq<string>, key: string, value: string, replaced: bool, n: string)
    requires '=' !in key
    ensures Value(windows, Replace(windows, env, key, value, replaced), n) ==
      if EnvKeysEqual(windows, n, key) then if replaced then None else Some(value) else Value(windows, env, n)
    decreases |env|
  {
    hide Upper, Eq, KeyOf, ValueOf;
    EntryParts(key, value);
    if env == [] {
      assert [key + "=" + value][1..] == [];
    } else {
      var e := env[0];
      KeyClean(e);
      EntryParts(KeyOf(e), value);
      var flag := replaced || ('=' in e && EnvKeysEqual(windows, KeyOf(e), key));
      ReplaceReads(windows, env[1..], key, value, flag, n);
      var rest := Replace(windows, env[1..], key, value, flag);
      var all := Replace(windows, env, key, value, replaced);
      assert all == rest || (|all| > 0 && all[1..] == rest);
    }
  }

  lemma KeyClean(e: string)
    ensures '=' !in KeyOf(e)
  {
  }

  // ----- the difference -----

  const LISTS := {"PATH", "INCLUDE", "LIB", "LIBPATH", "EXTERNAL_INCLUDE"}

  const IGNORED := {"PROMPT", "POLKA_VCVARSALL", "POLKA_VCVARS_ARCH", "POLKA_VCVARS_ARGS"}

  predicate Ignored(key: string) { Upper(key) in IGNORED || "__" <= key }

  /** What was captured: variables to set, and entries to prepend to list variables. */
  datatype Toolchain = Toolchain(plain: map<string, string>, lists: map<string, seq<string>>)

  function Base(baseline: seq<string>): map<string, string> {
    if baseline == [] then map[]
    else
      var e := baseline[|baseline| - 1];
      Base(baseline[..|baseline| - 1])[Upper(KeyOf(e)) := ValueOf(e)]
  }

  predicate Unchanged(base: map<string, string>, e: string) {
    Upper(KeyOf(e)) in base && base[Upper(KeyOf(e))] == ValueOf(e)
  }

  function AddedTo(form: string -> string, base: map<string, string>, e: string): seq<string> {
    var was := if Upper(KeyOf(e)) in base then base[Upper(KeyOf(e))] else "";
    Added(form, Forms(form, Entries(was)), Entries(ValueOf(e)))
  }

  /** The entry becomes a plain variable. */
  predicate Plain(base: map<string, string>, e: string) {
    !Ignored(KeyOf(e)) && !Unchanged(base, e) && Upper(KeyOf(e)) !in LISTS
  }

  /** The entry extends a list variable. */
  predicate Extends(form: string -> string, base: map<string, string>, e: string) {
    !Ignored(KeyOf(e)) && !Unchanged(base, e) && Upper(KeyOf(e)) in LISTS && AddedTo(form, base, e) != []
  }

  function Diff(form: string -> string, base: map<string, string>, captured: seq<string>): Toolchain {
    if captured == [] then Toolchain(map[], map[])
    else
      var e := captured[|captured| - 1];
      var t := Diff(form, base, captured[..|captured| - 1]);
      if Plain(base, e) then t.(plain := t.plain[KeyOf(e) := ValueOf(e)])
      else if Extends(form, base, e) then t.(lists := t.lists[Upper(KeyOf(e)) := AddedTo(form, base, e)])
      else t
  }

  /** diffMSVCEnvironment */
  method DiffEnvironment(form: string -> string, baseline: seq<string>, captured: seq<string>) returns (t: Toolchain)
    ensures t == Diff(form, Base(baseline), captured)
  {
    hide Eq, Upper, Added, Forms, Entries;
    var base: map<string, string> := map[];
    var i := 0;
    while i < |baseline|
      invariant i <= |baseline| && base == Base(baseline[..i])
    {
      assert baseline[..i + 1][..i] == baseline[..i];
      base := base[Upper(KeyOf(baseline[i])) := ValueOf(baseline[i])];
      i := i + 1;
    }
    assert baseline[..i] == baseline;
    var plain: map<string, string>, lists: map<string, seq<string>> := map[], map[];
    i := 0;
    while i < |captured|
      invariant i <= |captured| && Toolchain(plain, lists) == Diff(form, base, captured[..i])
    {
      var e := captured[i];
      assert captured[..i + 1][..i] == captured[..i] && captured[..i + 1][i] == e;
      i := i + 1;
      var key, value, upper := KeyOf(e), ValueOf(e), Upper(KeyOf(e));
      if upper in IGNORED || "__" <= key { continue; }
      var existed := upper in base;
      var baseValue := if existed then base[upper] else "";
      if existed && baseValue == value { continue; }
      if upper in LISTS {
        var was := SplitSemicolonList(baseValue);
        var now := SplitSemicolonList(value);
        var added := AddedListEntries(form, was, now);
        if |added| > 0 { lists := lists[upper := added]; }
        continue;
      }
      plain := plain[key := value];
    }
    assert captured[..i] == captured;
    return Toolchain(plain, lists);
  }

  // ----- the overlay -----

  /** The keys of a mapping, each once. */
  ghost predicate Lists(keys: seq<string>, all: set<string>) {
    (forall k :: k in keys <==> k in all) && forall i, j :: 0 <= i < j < |keys| ==> keys[i] != keys[j]
  }

  function SetAll(windows: bool, env: seq<string>, plain: map<string, string>, keys: seq<string>): seq<string>
    requires forall k :: k in keys ==> k in plain
  {
    if keys == [] then env
    else
      var k := keys[|keys| - 1];
      Replace(windows, SetAll(windows, env, plain, keys[..|keys| - 1]), k, plain[k], false)
  }

  function PrependOne(windows: bool, env: seq<string>, key: string, added: seq<string>): seq<string> {
    var found := Lookup(windows, env, key);
    var entryKey := if found.Some? && found.value.0 != "" then found.value.0 else key;
    var current := if found.Some? then found.value.1 else "";
    Replace(windows, env, entryKey, Join(Trimmed(added + [current]), Separator(windows)), false)
  }

  function PrependAll(windows: bool, env: seq<string>, lists: map<string, seq<string>>, keys: seq<string>): seq<string>
    requires forall k :: k in keys ==> k in lists
  {
    if keys == [] then env
    else
      var k := keys[|keys| - 1];
      PrependOne(windows, PrependAll(windows, env, lists, keys[..|keys| - 1]), k, lists[k])
  }

  function ListKeys(windows: bool, lists: map<string, seq<string>>): set<string> {
    set k | k in lists && !EnvKeysEqual(windows, k, "PATH")
  }

  /** applyMSVCToolchainEnvironment, with the keys in the order of the caller. */
  method ApplyToolchain(windows: bool, env: seq<string>, t: Toolchain, setKeys: seq<string>, prependKeys: seq<string>) returns (updated: seq<string>)
    requires Lists(setKeys, t.plain.Keys) && Lists(prependKeys, ListKeys(windows, t.lists))
    ensures updated == PrependAll(windows, SetAll(windows, env, t.plain, setKeys), t.lists, prependKeys)
  {
    hide Replace, Join, Trimmed;
    updated := env;
    var i := 0;
    while i < |setKeys|
      invariant i <= |setKeys| && updated == SetAll(windows, env, t.plain, setKeys[..i])
    {
      assert setKeys[..i + 1][..i] == setKeys[..i] && setKeys[i] in setKeys;
      updated := ReplaceEnvValue(windows, updated, setKeys[i], t.plain[setKeys[i]]);
      i := i + 1;
    }
    assert setKeys[..i] == setKeys;
    ghost var before := updated;
    assert forall k :: k in prependKeys ==> k in ListKeys(windows, t.lists) && k in t.lists;
    i := 0;
    while i < |prependKeys|
      invariant i <= |prependKeys| && updated == PrependAll(windows, before, t.lists, prependKeys[..i])
    {
      assert prependKeys[..i + 1][..i] == prependKeys[..i] && prependKeys[i] in prependKeys;
      var key := prependKeys[i];
      var entryKey, current, found := LookupEnvValue(windows, updated, key);
      if entryKey == "" { entryKey := key; }
      var joined := JoinPathList(windows, t.lists[key] + [current]);
      updated := ReplaceEnvValue(windows, updated, entryKey, joined);
      i := i + 1;
    }
    assert prependKeys[..i] == prependKeys;
  }
}
