/** What manifest expressions evaluate to, without a memo.

    On a manifest whose named values are ranked, evaluation terminates: it goes
    down in the rank of the references, and then in the size of the expression. */
module ManifestEval {
  import opened Text
  import opened PhpScalars
  import opened ManifestValues

  /** The managed credentials, as normalized for one invocation. */
  datatype Database = Database(engine: string, version: string, host: string, port: string, name: string, user: string, password: string)

  /** What the URL formatter hands to net/url. */
  datatype UrlParts = UrlParts(scheme: string, host: string, path: string, query: seq<(string, string)>, credentials: Option<(string, string)>)

  /** The data of one hook invocation; `url` stands for the formatting of net/url. */
  datatype Context = Context(manifest: Manifest, database: Option<Database>, serverUrl: string, mailpitPort: Scalar, url: UrlParts -> string)

  // ----- text functions -----

  /** strings.Trim(s, "[]") */
  function TrimBrackets(s: string): string {
    if s != "" && (s[0] == '[' || s[0] == ']') then TrimBrackets(s[1..])
    else if s != "" && (s[|s| - 1] == '[' || s[|s| - 1] == ']') then TrimBrackets(s[..|s| - 1])
    else s
  }

  function Padded(parts: seq<string>, n: int): seq<string>
    decreases n - |parts|
  {
    if |parts| < n then Padded(parts + ["0"], n) else parts
  }

  /** net.JoinHostPort */
  function JoinHostPort(host: string, port: string): string {
    if ':' in host then "[" + host + "]:" + port else host + ":" + port
  }

  /** frameworkScalarText */
  function ScalarText(v: Scalar): string {
    match v
    case Null => ""
    case Str(s) => s
    case Bool(b) => if b then "true" else "false"
    case Number(text) => text
  }

  /** The version formatter on a text. */
  function VersionText(text: string, f: Format): string {
    var value := TrimSpace(text);
    if value == "" then ""
    else
      var rest := if Lower(f.stripPrefix) <= Lower(value) then TrimSpace(value[|f.stripPrefix|..]) else value;
      f.prefix + Join(Padded(SplitOn(rest, '.'), f.minParts), ".")
  }

  function DatabaseField(db: Database, field: string): Option<string> {
    if field == "engine" then Some(db.engine) else if field == "version" then Some(db.version)
    else if field == "host" then Some(db.host) else if field == "port" then Some(db.port)
    else if field == "name" then Some(db.name) else if field == "user" then Some(db.user)
    else if field == "password" then Some(db.password) else None
  }

  function Branch(bs: seq<Binding>, engine: string): (r: Option<Value>)
    ensures r.Some? ==> r.value in Bound(bs)
    ensures r.Some? <==> engine in KeysOf(bs)
  {
    if bs == [] then None
    else if bs[0].key == engine then
      assert Bound(bs)[0] == bs[0].value;
      Some(bs[0].value)
    else
      var r := Branch(bs[1..], engine);
      assert forall i :: 0 < i < |bs| ==> Bound(bs)[i] == Bound(bs[1..])[i - 1];
      assert engine in KeysOf(bs) <==> engine in KeysOf(bs[1..]) by {
        if i :| 0 <= i < |bs| && bs[i].key == engine { assert bs[1..][i - 1].key == engine; }
        if i :| 0 <= i < |bs[1..]| && bs[1..][i].key == engine { assert bs[i + 1].key == engine; }
      }
      r
  }

  // ----- evaluation -----

  /** v refers only to named values of rank below bound. */
  ghost predicate Below(m: Manifest, rank: map<string, nat>, v: Value, bound: nat) {
    Ranked(Named(m), rank) && forall r :: r in Refs(v) ==> r in Named(m) && r in rank && rank[r] < bound
  }

  lemma BelowChild(m: Manifest, rank: map<string, nat>, v: Value, c: Value, bound: nat)
    requires Below(m, rank, v, bound) && c in Children(v)
    ensures Below(m, rank, c, bound) && c < v
  {
  }

  lemma BelowNamed(m: Manifest, rank: map<string, nat>, ref: string)
    requires Ranked(Named(m), rank) && ref in Named(m)
    ensures ref in rank && Below(m, rank, Named(m)[ref], rank[ref])
  {
  }

  /** What a reference selects. */
  ghost function Reference(c: Context, rank: map<string, nat>, ref: string, bound: nat): Result<Scalar, ValueError>
    requires Ranked(Named(c.manifest), rank)
    requires !IsDatabase(ref) && !IsBuiltin(ref) && ref in Named(c.manifest) ==> ref in rank && rank[ref] < bound
    decreases bound, 0
  {
    if ref == "server.url" then Ok(Str(c.serverUrl))
    else if ref == "mailpit.smtp-port" then Ok(c.mailpitPort)
    else if IsDatabase(ref) then
      if c.database.None? then Err(NeedsDatabase)
      else
        match DatabaseField(c.database.value, ref[|"database."|..])
        case None => Err(UnknownReference(ref))
        case Some(text) => Ok(Str(text))
    else if Lookup(c.manifest, ref).None? then Err(UnknownReference(ref))
    else
      BelowNamed(c.manifest, rank, ref);
      Eval(c, rank, Named(c.manifest)[ref], rank[ref])
  }

  predicate IsEmpty(v: Scalar) { v == Null || v == Str("") }

  /** The value of an expression before its default. */
  ghost function Undefaulted(c: Context, rank: map<string, nat>, v: Value, bound: nat): Result<Scalar, ValueError>
    requires Below(c.manifest, rank, v, bound)
    decreases bound, 1, v, 3
  {
    if v.from != "" then
      assert v.from in Refs(v) || IsDatabase(v.from) || IsBuiltin(v.from);
      Reference(c, rank, v.from, bound)
    else if v.byEngine.Branches? then
      if c.database.None? then Err(NeedsDatabase)
      else
        match Branch(v.byEngine.list, c.database.value.engine)
        case None => Err(NoEngineValue(c.database.value.engine))
        case Some(b) =>
          BelowChild(c.manifest, rank, v, b, bound);
          Eval(c, rank, b, bound)
    else if v.format.Some? then
      match Formatted(c, rank, v, bound)
      case Err(e) => Err(e)
      case Ok(text) => Ok(Str(text))
    else Ok(v.literal)
  }

  /** eval */
  ghost function Eval(c: Context, rank: map<string, nat>, v: Value, bound: nat): Result<Scalar, ValueError>
    requires Below(c.manifest, rank, v, bound)
    decreases bound, 1, v, 4
  {
    match Undefaulted(c, rank, v, bound)
    case Err(e) => Err(e)
    case Ok(result) =>
      if v.default.Some? && IsEmpty(result) then
        BelowChild(c.manifest, rank, v, v.default.value, bound);
        Eval(c, rank, v.default.value, bound)
      else Ok(result)
  }

  /** text: an operand that may be missing. */
  ghost function TextOf(c: Context, rank: map<string, nat>, v: Value, o: Option<Value>, bound: nat): Result<string, ValueError>
    requires Below(c.manifest, rank, v, bound) && Within(v, o)
    decreases bound, 1, v, 0
  {
    if o.None? then Ok("")
    else
      BelowChild(c.manifest, rank, v, o.value, bound);
      match Eval(c, rank, o.value, bound)
      case Err(e) => Err(e)
      case Ok(s) => Ok(ScalarText(s))
  }

  /** The texts of several operands. */
  ghost function TextsOf(c: Context, rank: map<string, nat>, v: Value, os: seq<Option<Value>>, bound: nat): (r: Result<seq<string>, ValueError>)
    requires Below(c.manifest, rank, v, bound) && forall o :: o in os ==> Within(v, o)
    ensures r.Ok? ==> |r.value| == |os|
    decreases bound, 1, v, 1, |os|
  {
    if os == [] then Ok([])
    else
      var before :- TextsOf(c, rank, v, os[..|os| - 1], bound);
      var text :- TextOf(c, rank, v, os[|os| - 1], bound);
      Ok(before + [text])
  }

  /** The texts of the query parameters that are not empty. */
  ghost function QueryTexts(c: Context, rank: map<string, nat>, v: Value, bs: seq<Binding>, bound: nat): Result<seq<(string, string)>, ValueError>
    requires Below(c.manifest, rank, v, bound) && forall b :: b in bs ==> b.value in Children(v)
    decreases bound, 1, v, 1, bs
  {
    if bs == [] then Ok([])
    else
      var first := bs[|bs| - 1];
      var before :- QueryTexts(c, rank, v, bs[..|bs| - 1], bound);
      BelowChild(c.manifest, rank, v, first.value, bound);
      var s :- Eval(c, rank, first.value, bound);
      Ok(before + if ScalarText(s) == "" then [] else [(first.key, ScalarText(s))])
  }

  /** format */
  ghost function Formatted(c: Context, rank: map<string, nat>, v: Value, bound: nat): Result<string, ValueError>
    requires Below(c.manifest, rank, v, bound) && v.format.Some?
    decreases bound, 1, v, 2
  {
    hide Below, Named, Ranked, Children, Refs, Operands, Within, VersionText, IsPort, HostPort, UrlOf, Params;
    var f := v.format.value;
    OperandsAreChildren(v);
    if f.kind == "string" || f.kind == "version" then
      var text :- TextOf(c, rank, v, f.value, bound);
      Ok(if f.kind == "string" then text else VersionText(text, f))
    else
      var params :- TextsOf(c, rank, v, Params(f), bound);
      var host, port, scheme := params[0], params[1], params[2];
      if host == "" then Err(EmptyHost)
      else if port != "" && !IsPort(port) then Err(BadPort)
      else if f.kind == "host-port" then Ok(HostPort(f, host, port))
      else
        var query :- QueryTexts(c, rank, v, f.query, bound);
        if scheme == "" then Err(EmptyUrl)
        else Ok(c.url(UrlOf(f, params, query)))
  }

  function Params(f: Format): (r: seq<Option<Value>>)
    ensures |r| == 6
  {
    [f.host, f.port, f.scheme, f.user, f.password, f.path]
  }

  function HostPort(f: Format, host: string, port: string): string {
    if port == "" || port == f.omitPort then host else JoinHostPort(TrimBrackets(host), port)
  }

  function UrlOf(f: Format, params: seq<string>, query: seq<(string, string)>): UrlParts
    requires |params| == 6
  {
    var host, port := params[0], params[1];
    UrlParts(params[2],
      if port != "" then JoinHostPort(TrimBrackets(host), port) else if ':' in host then "[" + TrimBrackets(host) + "]" else host,
      params[5], query, if f.user.Some? || f.password.Some? then Some((params[3], params[4])) else None)
  }

  predicate Within(v: Value, o: Option<Value>) { o.Some? ==> o.value in Children(v) }

  lemma OperandsAreChildren(v: Value)
    requires v.format.Some?
    ensures var f := v.format.value;
      && Within(v, f.value) && (forall o :: o in Params(f) ==> Within(v, o))
      && (forall b :: b in f.query ==> b.value in Children(v))
  {
    var f := v.format.value;
    forall b | b in f.query
      ensures b.value in Children(v)
    {
      var i :| 0 <= i < |f.query| && f.query[i] == b;
      assert Bound(f.query)[i] == b.value;
      assert b.value in Operands(f);
    }
    forall o | o in [f.value, f.host, f.port, f.scheme, f.user, f.password, f.path]
      ensures Within(v, o)
    {
      if o.Some? {
        assert o.value in Given(o);
        assert o.value in Operands(f);
      }
    }
  }
}
