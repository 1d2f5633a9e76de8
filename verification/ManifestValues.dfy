/** The value language of framework manifests: its expressions, the checks on them
    and what they evaluate to. */
module ManifestValues {
  import opened Text
  import opened PhpScalars

  datatype Branches = NoBranches | Branches(list: seq<Binding>)

  /** One entry of a mapping; mappings are listed in key order. */
  datatype Binding = Binding(key: string, value: Value)

  /** frameworkValue: a literal, a reference, a branch per engine or a format, and a
      default for empty results. */
  datatype Value = Value(literal: Scalar, from: string, byEngine: Branches, format: Option<Format>, default: Option<Value>)

  /** frameworkFormat */
  datatype Format = Format(
    kind: string, value: Option<Value>, host: Option<Value>, port: Option<Value>, scheme: Option<Value>, user: Option<Value>,
    password: Option<Value>, path: Option<Value>, query: seq<Binding>, omitPort: string, prefix: string, stripPrefix: string, minParts: int)

  datatype ValueError =
    | UnknownReference(ref: string) | ReferenceCycle(key: string) | BadFormat | BadEngine | MissingEngine
    | BadName(name: string) | DuplicateName(name: string)
    | NeedsDatabase | NoEngineValue(engine: string) | EmptyHost | BadPort | EmptyUrl

  // ----- structure -----

  function Given(o: Option<Value>): (r: seq<Value>)
    ensures forall c :: c in r ==> o == Some(c)
  {
    if o.None? then [] else [o.value]
  }

  function Bound(bs: seq<Binding>): (r: seq<Value>)
    ensures |r| == |bs| && forall i :: 0 <= i < |bs| ==> r[i] == bs[i].value
  {
    seq(|bs|, i requires 0 <= i < |bs| => bs[i].value)
  }

  function Operands(f: Format): seq<Value> {
    Given(f.value) + Given(f.host) + Given(f.port) + Given(f.scheme) + Given(f.user) + Given(f.password) + Given(f.path) + Bound(f.query)
  }

  /** children: every operand, in unused branches too. */
  function Children(v: Value): (r: seq<Value>)
    ensures forall c :: c in r ==> c < v
  {
    var r := Given(v.default) + (if v.byEngine.Branches? then Bound(v.byEngine.list) else []) + (if v.format.Some? then Operands(v.format.value) else []);
    assert forall c :: c in r ==> c < v by {
      forall c | c in r
        ensures c < v
      {
        ChildSmaller(v, c);
      }
    }
    r
  }

  lemma ChildSmaller(v: Value, c: Value)
    requires c in Given(v.default) + (if v.byEngine.Branches? then Bound(v.byEngine.list) else []) + (if v.format.Some? then Operands(v.format.value) else [])
    ensures c < v
  {
    if v.byEngine.Branches? && c in Bound(v.byEngine.list) {
      var i :| 0 <= i < |v.byEngine.list| && c == v.byEngine.list[i].value;
      assert v.byEngine.list[i] < v.byEngine;
    } else if v.format.Some? && c in Operands(v.format.value) {
      OperandSmaller(v.format.value, c);
    }
  }

  lemma OperandSmaller(f: Format, c: Value)
    requires c in Operands(f)
    ensures c < f
  {
  }

  function KeysOf(bs: seq<Binding>): set<string> {
    set i | 0 <= i < |bs| :: bs[i].key
  }

  // ----- references -----

  predicate IsDatabase(ref: string) { "database." <= ref }

  const DATABASE_FIELDS := {"engine", "version", "host", "port", "name", "user", "password"}

  predicate IsBuiltin(ref: string) { ref == "server.url" || ref == "mailpit.smtp-port" }

  /** The named values that v refers to, anywhere inside it. */
  function Refs(v: Value): set<string>
    decreases v
  {
    (if v.from != "" && !IsDatabase(v.from) && !IsBuiltin(v.from) then {v.from} else {}) +
    set c, r | c in Children(v) && r in Refs(c) :: r
  }

  // ----- manifests -----

  datatype Manifest = Manifest(values: map<string, Value>, runtime: map<string, Value>, runtimeDatabase: map<string, Value>, engines: seq<string>)

  const VALUES := "values."
  const RUNTIME := "runtime-env."

  /** The lookup of reference: the named value behind a full reference. */
  function Lookup(m: Manifest, ref: string): Option<Value> {
    if VALUES <= ref then
      var key := ref[|VALUES|..];
      if key in m.values then Some(m.values[key]) else None
    else if RUNTIME <= ref then
      var key := ref[|RUNTIME|..];
      if key in m.runtime then Some(m.runtime[key])
      else if key in m.runtimeDatabase then Some(m.runtimeDatabase[key])
      else None
    else None
  }

  /** The map of all named values, by full reference. */
  function Named(m: Manifest): (n: map<string, Value>)
    ensures forall r :: r in n <==> Lookup(m, r).Some?
    ensures forall r :: r in n ==> n[r] == Lookup(m, r).value
  {
    var refs := (set k | k in m.values :: VALUES + k) + (set k | k in m.runtime.Keys + m.runtimeDatabase.Keys :: RUNTIME + k);
    assert forall k :: (VALUES + k)[|VALUES|..] == k && (RUNTIME + k)[|RUNTIME|..] == k;
    assert forall r :: r in refs <==> Lookup(m, r).Some? by {
      forall r
        ensures r in refs <==> Lookup(m, r).Some?
      {
        RefOf(m, r, refs);
      }
    }
    map r | r in refs :: Lookup(m, r).value
  }

  lemma RefOf(m: Manifest, r: string, refs: set<string>)
    requires refs == (set k | k in m.values :: VALUES + k) + (set k | k in m.runtime.Keys + m.runtimeDatabase.Keys :: RUNTIME + k)
    ensures r in refs <==> Lookup(m, r).Some?
  {
    if VALUES <= r {
      assert r == VALUES + r[|VALUES|..];
    } else if RUNTIME <= r {
      assert r == RUNTIME + r[|RUNTIME|..];
    }
    if k :| k in m.values && r == VALUES + k {
      assert r[|VALUES|..] == k;
    }
    if k :| k in m.runtime.Keys + m.runtimeDatabase.Keys && r == RUNTIME + k {
      assert r[|RUNTIME|..] == k && r[0] == 'r';
    }
  }

  // ----- the checks on one expression -----

  function ParseDigits(s: string, n: nat): Option<nat> {
    if s == "" then Some(n)
    else if '0' <= s[0] <= '9' then ParseDigits(s[1..], 10 * n + (s[0] as int - '0' as int))
    else None
  }

  /** strconv.Atoi */
  function Atoi(s: string): Option<int> {
    var digits := if s != "" && (s[0] == '+' || s[0] == '-') then s[1..] else s;
    if digits == "" then None
    else
      match ParseDigits(digits, 0)
      case None => None
      case Some(n) => Some(if s[0] == '-' then 0 - n else n)
  }

  predicate IsPort(s: string) {
    match Atoi(s) case None => false case Some(n) => 1 <= n <= 65535
  }

  /** The part of validate that looks at a formatter. */
  predicate FormatOk(f: Format) {
    if f.kind == "string" || f.kind == "version" then
      && f.value.Some?
      && f.host.None? && f.port.None? && f.scheme.None? && f.user.None? && f.password.None? && f.path.None? && f.query == [] && f.omitPort == ""
      && (f.kind == "string" ==> f.prefix == "" && f.stripPrefix == "" && f.minParts == 0)
      && 0 <= f.minParts <= 8
    else if f.kind == "host-port" || f.kind == "url" then
      && f.host.Some? && (f.kind == "url" ==> f.scheme.Some? && f.path.Some?)
      && f.value.None? && f.prefix == "" && f.stripPrefix == "" && f.minParts == 0
      && (f.kind == "host-port" ==> f.scheme.None? && f.user.None? && f.password.None? && f.path.None? && f.query == [])
      && (f.kind == "url" ==> f.omitPort == "")
      && (f.omitPort != "" ==> IsPort(f.omitPort))
    else false
  }

  const ENGINES := {"mysql", "mariadb", "postgresql", "sqlite"}

  /** The checks on an expression itself: its form, its engines and its reference. */
  predicate NodeOk(m: Manifest, v: Value) {
    && (v.byEngine.Branches? ==> KeysOf(v.byEngine.list) <= ENGINES)
    && (v.format.Some? ==> FormatOk(v.format.value))
    && (v.byEngine.Branches? ==> forall e :: e in m.engines ==> e in KeysOf(v.byEngine.list))
    && (v.from != "" ==>
      if IsDatabase(v.from) then v.from[|"database."|..] in DATABASE_FIELDS else IsBuiltin(v.from) || v.from in Named(m))
  }

  /** The checks on an expression and everything inside it. */
  predicate Sound(m: Manifest, v: Value)
    decreases v
  {
    NodeOk(m, v) && forall c :: c in Children(v) ==> Sound(m, c)
  }

  lemma {:induction false} SoundRefs(m: Manifest, v: Value)
    requires Sound(m, v)
    ensures Refs(v) <= Named(m).Keys
    decreases v
  {
    hide Named, NodeOk;
    forall r | r in Refs(v)
      ensures r in Named(m)
    {
      if c :| c in Children(v) && r in Refs(c) {
        SoundRefs(m, c);
      } else {
        NodeRef(m, v);
      }
    }
  }

  lemma NodeRef(m: Manifest, v: Value)
    requires NodeOk(m, v) && v.from != "" && !IsDatabase(v.from) && !IsBuiltin(v.from)
    ensures v.from in Named(m)
  {
  }

  // ----- cycles -----

  /** Each key refers to the next. */
  predicate IsPath(n: map<string, Value>, p: seq<string>) {
    && (forall i :: 0 <= i < |p| ==> p[i] in n)
    && (forall i :: 0 <= i < |p| - 1 ==> p[i + 1] in Refs(n[p[i]]))
  }

  ghost predicate HasCycle(n: map<string, Value>) {
    exists p :: |p| >= 2 && IsPath(n, p) && p[0] == p[|p| - 1]
  }

  /** References lead to values of smaller rank. */
  ghost predicate Ranked(n: map<string, Value>, rank: map<string, nat>) {
    forall k :: k in n ==> k in rank && forall r :: r in Refs(n[k]) ==> r in n && r in rank && rank[r] < rank[k]
  }

  lemma {:induction false} PathFalls(n: map<string, Value>, rank: map<string, nat>, p: seq<string>)
    requires Ranked(n, rank) && IsPath(n, p) && |p| >= 2
    ensures rank[p[|p| - 1]] < rank[p[0]]
    decreases |p|
  {
    hide Refs;
    if |p| > 2 {
      var q := p[..|p| - 1];
      assert IsPath(n, q);
      PathFalls(n, rank, q);
    }
    assert p[|p| - 2 + 1] in Refs(n[p[|p| - 2]]);
  }

  /** A ranked graph has no cycle. */
  lemma RankedAcyclic(n: map<string, Value>, rank: map<string, nat>)
    requires Ranked(n, rank)
    ensures !HasCycle(n)
  {
    hide Refs;
    forall p | |p| >= 2 && IsPath(n, p)
      ensures p[0] != p[|p| - 1]
    {
      PathFalls(n, rank, p);
    }
  }
}
