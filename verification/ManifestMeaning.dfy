/** What the words of the manifest language mean: which references, engines and
    formatters there are, and what each of them reads. */
module ManifestMeaning {
  import opened Text
  import opened PhpScalars
  import opened ManifestValues
  import opened ManifestEval
  import MC = ManifestChecker

  // ----- references -----

  /** r is the scalar s, unless s is empty and there is a default. */
  predicate Reads(v: Value, r: Result<Scalar, ValueError>, s: Scalar) {
    v.default.None? || (s != Null && s != Str("")) ==> r == Ok(s)
  }

  /** r is what the references by a fixed name read. */
  predicate ReadsBuiltin(c: Context, v: Value, r: Result<Scalar, ValueError>) {
    && (v.from == "server.url" ==> Reads(v, r, Str(c.serverUrl)))
    && (v.from == "mailpit.smtp-port" ==> Reads(v, r, c.mailpitPort))
    && match c.database
       case None => "database." <= v.from ==> r == Err(NeedsDatabase)
       case Some(d) =>
         && (v.from == "database.engine" ==> Reads(v, r, Str(d.engine)))
         && (v.from == "database.version" ==> Reads(v, r, Str(d.version)))
         && (v.from == "database.host" ==> Reads(v, r, Str(d.host)))
         && (v.from == "database.port" ==> Reads(v, r, Str(d.port)))
         && (v.from == "database.name" ==> Reads(v, r, Str(d.name)))
         && (v.from == "database.user" ==> Reads(v, r, Str(d.user)))
         && (v.from == "database.password" ==> Reads(v, r, Str(d.password)))
  }

  /** Every fixed reference reads the field of its own name. */
  lemma BuiltinReads(c: Context, rank: map<string, nat>, v: Value, bound: nat)
    requires Below(c.manifest, rank, v, bound)
    ensures ReadsBuiltin(c, v, Eval(c, rank, v, bound))
  {
    hide Named, Ranked, Refs, Children, Formatted, Branch, Below, Undefaulted, Eval, DatabaseField, Reads;
    assert v.from != "" && "database." <= v.from ==> v.from[0] == 'd';
    if v.from == "server.url" || v.from == "mailpit.smtp-port" {
      Selects(c, rank, v, bound);
    } else if "database." <= v.from {
      FieldReads(c, rank, v, bound);
      if c.database.Some? { Fields(c.database.value); }
    }
  }

  lemma Fields(d: Database)
    ensures "database.engine"[|"database."|..] == "engine" && DatabaseField(d, "engine") == Some(d.engine)
    ensures "database.version"[|"database."|..] == "version" && DatabaseField(d, "version") == Some(d.version)
    ensures "database.host"[|"database."|..] == "host" && DatabaseField(d, "host") == Some(d.host)
    ensures "database.port"[|"database."|..] == "port" && DatabaseField(d, "port") == Some(d.port)
    ensures "database.name"[|"database."|..] == "name" && DatabaseField(d, "name") == Some(d.name)
    ensures "database.user"[|"database."|..] == "user" && DatabaseField(d, "user") == Some(d.user)
    ensures "database.password"[|"database."|..] == "password" && DatabaseField(d, "password") == Some(d.password)
  {
  }

  lemma Selects(c: Context, rank: map<string, nat>, v: Value, bound: nat)
    requires Below(c.manifest, rank, v, bound)
    ensures v.from == "server.url" ==> Reads(v, Eval(c, rank, v, bound), Str(c.serverUrl))
    ensures v.from == "mailpit.smtp-port" ==> Reads(v, Eval(c, rank, v, bound), c.mailpitPort)
  {
    hide Named, Ranked, Refs, Children, Formatted, Branch, DatabaseField, Below, Undefaulted;
    if v.from == "server.url" || v.from == "mailpit.smtp-port" { Refers(c, rank, v, bound); }
  }

  lemma FieldReads(c: Context, rank: map<string, nat>, v: Value, bound: nat)
    requires Below(c.manifest, rank, v, bound) && "database." <= v.from
    ensures match c.database
      case None => Eval(c, rank, v, bound) == Err(NeedsDatabase)
      case Some(d) =>
        match DatabaseField(d, v.from[|"database."|..])
        case None => Eval(c, rank, v, bound) == Err(UnknownReference(v.from))
        case Some(text) => Reads(v, Eval(c, rank, v, bound), Str(text))
  {
    hide Named, Ranked, Refs, Children, Formatted, Branch, DatabaseField, Below, Undefaulted;
    Refers(c, rank, v, bound);
    assert v.from[0] == 'd' && "server.url"[0] == 's' && "mailpit.smtp-port"[0] == 'm';
  }

  lemma Refers(c: Context, rank: map<string, nat>, v: Value, bound: nat)
    requires Below(c.manifest, rank, v, bound) && v.from != ""
    ensures Ranked(Named(c.manifest), rank)
    ensures !IsDatabase(v.from) && !IsBuiltin(v.from) && v.from in Named(c.manifest) ==> v.from in rank && rank[v.from] < bound
    ensures Undefaulted(c, rank, v, bound) == Reference(c, rank, v.from, bound)
  {
    hide Named, Ranked, Reference;
    assert v.from in Refs(v) || IsDatabase(v.from) || IsBuiltin(v.from);
  }

  /** A reference reads the named value behind it: `values.` leads to the manifest's
      values, `runtime-env.` to its runtime variables. */
  lemma NamedReads(c: Context, rank: map<string, nat>, v: Value, k: string, bound: nat)
    requires Below(c.manifest, rank, v, bound) && v.default.None?
    ensures v.from == "values." + k ==> k in c.manifest.values && ReadsNamed(c, rank, v, bound, c.manifest.values[k])
    ensures v.from == "runtime-env." + k ==>
      if k in c.manifest.runtime then ReadsNamed(c, rank, v, bound, c.manifest.runtime[k])
      else k in c.manifest.runtimeDatabase && ReadsNamed(c, rank, v, bound, c.manifest.runtimeDatabase[k])
  {
    hide Ranked, Refs, Children, Formatted, Branch, DatabaseField, Below, Undefaulted, Eval, ReadsNamed;
    if v.from == "values." + k {
      assert v.from[|"values."|..] == k && v.from[0] == 'v';
      NamedSelects(c, rank, v, bound);
    } else if v.from == "runtime-env." + k {
      assert v.from[|"runtime-env."|..] == k && v.from[0] == 'r' && VALUES[0] == 'v';
      NamedSelects(c, rank, v, bound);
    }
  }

  /** v evaluates to what the named value n evaluates to. */
  ghost predicate ReadsNamed(c: Context, rank: map<string, nat>, v: Value, bound: nat, n: Value)
    requires Below(c.manifest, rank, v, bound)
  {
    v.from in rank && Below(c.manifest, rank, n, rank[v.from]) && Eval(c, rank, v, bound) == Eval(c, rank, n, rank[v.from])
  }

  lemma NamedSelects(c: Context, rank: map<string, nat>, v: Value, bound: nat)
    requires Below(c.manifest, rank, v, bound) && v.default.None? && v.from != "" && (v.from[0] == 'v' || v.from[0] == 'r')
    ensures v.from in Named(c.manifest) && ReadsNamed(c, rank, v, bound, Named(c.manifest)[v.from])
  {
    hide Ranked, Children, Formatted, Branch, DatabaseField, Undefaulted, Named;
    assert "server.url"[0] == 's' && "mailpit.smtp-port"[0] == 'm' && "database."[0] == 'd';
    assert v.from in Refs(v);
    Refers(c, rank, v, bound);
    BelowNamed(c.manifest, rank, v.from);
  }

  /** The branches are selected by the engine of the credentials. */
  lemma BranchReads(c: Context, rank: map<string, nat>, v: Value, i: nat, bound: nat)
    requires Below(c.manifest, rank, v, bound) && v.from == "" && v.byEngine.Branches? && v.default.None?
    requires i < |v.byEngine.list| && forall j :: 0 <= j < i ==> v.byEngine.list[j].key != v.byEngine.list[i].key
    ensures c.database.None? ==> Eval(c, rank, v, bound) == Err(NeedsDatabase)
    ensures c.database.Some? && c.database.value.engine == v.byEngine.list[i].key ==>
      && Below(c.manifest, rank, v.byEngine.list[i].value, bound)
      && Eval(c, rank, v, bound) == Eval(c, rank, v.byEngine.list[i].value, bound)
    ensures c.database.Some? && c.database.value.engine !in KeysOf(v.byEngine.list) ==> Eval(c, rank, v, bound) == Err(NoEngineValue(c.database.value.engine))
  {
    hide Ranked, Formatted, Branch, Named, Refs, Children, Below;
    BranchAt(v.byEngine.list, i);
    assert Bound(v.byEngine.list)[i] == v.byEngine.list[i].value;
    BranchIsChild(v, i);
    BelowChild(c.manifest, rank, v, v.byEngine.list[i].value, bound);
  }

  lemma BranchIsChild(v: Value, i: nat)
    requires v.byEngine.Branches? && i < |v.byEngine.list|
    ensures v.byEngine.list[i].value in Children(v)
  {
    assert Bound(v.byEngine.list)[i] == v.byEngine.list[i].value;
  }

  lemma {:induction false} BranchAt(bs: seq<Binding>, i: nat)
    requires i < |bs| && forall j :: 0 <= j < i ==> bs[j].key != bs[i].key
    ensures Branch(bs, bs[i].key) == Some(bs[i].value)
  {
    if i > 0 { BranchAt(bs[1..], i - 1); }
  }

  /** A literal reads itself; a default stands in for null and for the empty text. */
  lemma LiteralReads(c: Context, rank: map<string, nat>, v: Value, bound: nat)
    requires Below(c.manifest, rank, v, bound) && v.from == "" && v.byEngine.NoBranches? && v.format.None?
    ensures v.default.None? || (v.literal != Null && v.literal != Str("")) ==> Eval(c, rank, v, bound) == Ok(v.literal)
    ensures v.default.Some? && (v.literal == Null || v.literal == Str("")) ==>
      Below(c.manifest, rank, v.default.value, bound) && Eval(c, rank, v, bound) == Eval(c, rank, v.default.value, bound)
  {
    hide Ranked, Formatted, Named, Refs, Below;
    if v.default.Some? { BelowChild(c.manifest, rank, v, v.default.value, bound); }
  }

  // ----- what is accepted -----

  function Bare(from: string): Value { Value(Null, from, NoBranches, None, None) }

  /** The references that are accepted. */
  lemma ReferencesAccepted(m: Manifest, from: string)
    requires from != ""
    ensures Sound(m, Bare(from)) <==>
      || from == "server.url" || from == "mailpit.smtp-port"
      || from == "database.engine" || from == "database.version" || from == "database.host" || from == "database.port"
      || from == "database.name" || from == "database.user" || from == "database.password"
      || (exists k :: k in m.values && from == "values." + k)
      || (exists k :: (k in m.runtime || k in m.runtimeDatabase) && from == "runtime-env." + k)
  {
    hide Named, Lookup;
    assert Sound(m, Bare(from)) <==> NodeOk(m, Bare(from));
    if IsDatabase(from) {
      FieldsListed(from);
      assert from[0] == 'd' && "values."[0] == 'v' && "runtime-env."[0] == 'r';
    } else {
      NamedListed(m, from);
    }
  }

  lemma FieldsListed(from: string)
    requires "database." <= from
    ensures from[|"database."|..] in DATABASE_FIELDS <==>
      || from == "database.engine" || from == "database.version" || from == "database.host" || from == "database.port"
      || from == "database.name" || from == "database.user" || from == "database.password"
  {
    var rest := from[|"database."|..];
    assert from == "database." + rest;
    FieldTexts();
    SameRest(rest, "engine");
    SameRest(rest, "version");
    SameRest(rest, "host");
    SameRest(rest, "port");
    SameRest(rest, "name");
    SameRest(rest, "user");
    SameRest(rest, "password");
  }

  lemma FieldTexts()
    ensures "database." + "engine" == "database.engine"
    ensures "database." + "version" == "database.version"
    ensures "database." + "host" == "database.host"
    ensures "database." + "port" == "database.port"
    ensures "database." + "name" == "database.name"
    ensures "database." + "user" == "database.user"
    ensures "database." + "password" == "database.password"
  {
  }

  lemma SameRest(rest: string, field: string)
    ensures "database." + rest == "database." + field <==> rest == field
  {
    assert ("database." + rest)[|"database."|..] == rest && ("database." + field)[|"database."|..] == field;
  }

  lemma NamedListed(m: Manifest, from: string)
    ensures from in Named(m) <==>
      || (exists k :: k in m.values && from == "values." + k)
      || (exists k :: (k in m.runtime || k in m.runtimeDatabase) && from == "runtime-env." + k)
  {
    if VALUES <= from { assert from == "values." + from[|"values."|..]; }
    if RUNTIME <= from { assert from == "runtime-env." + from[|"runtime-env."|..]; }
    if k :| k in m.values && from == "values." + k { assert from[|"values."|..] == k; }
    if k :| (k in m.runtime || k in m.runtimeDatabase) && from == "runtime-env." + k {
      assert from[|"runtime-env."|..] == k && from[0] == 'r' && VALUES[0] == 'v';
    }
  }

  /** The branches that are accepted: only for the four engines, and one for every
      engine that the manifest declares. */
  lemma BranchesAccepted(m: Manifest, bs: seq<Binding>)
    ensures var v := Value(Null, "", Branches(bs), None, None);
      Sound(m, v) <==>
        && (forall b :: b in bs ==> (b.key == "mysql" || b.key == "mariadb" || b.key == "postgresql" || b.key == "sqlite") && Sound(m, b.value))
        && (forall e :: e in m.engines ==> exists b :: b in bs && b.key == e)
  {
    hide Named, Children, KeysOf;
    var v := Value(Null, "", Branches(bs), None, None);
    BranchChildren(v);
    BranchKeys(bs);
  }

  lemma BranchChildren(v: Value)
    requires v.byEngine.Branches? && v.default.None? && v.format.None?
    ensures forall b :: b in v.byEngine.list ==> b.value in Children(v)
    ensures forall c :: c in Children(v) ==> exists b :: b in v.byEngine.list && b.value == c
  {
    hide Children;
    var bs := v.byEngine.list;
    OnlyBranches(v);
    forall b | b in bs
      ensures b.value in Bound(bs)
    {
      var i :| 0 <= i < |bs| && bs[i] == b;
      assert Bound(bs)[i] == b.value;
    }
    forall c | c in Bound(bs)
      ensures exists b :: b in bs && b.value == c
    {
      var i :| 0 <= i < |bs| && Bound(bs)[i] == c;
      assert bs[i] in bs;
    }
  }

  lemma OnlyBranches(v: Value)
    requires v.byEngine.Branches? && v.default.None? && v.format.None?
    ensures Children(v) == Bound(v.byEngine.list)
  {
  }

  lemma BranchKeys(bs: seq<Binding>)
    ensures forall e :: e in KeysOf(bs) <==> exists b :: b in bs && b.key == e
    ensures KeysOf(bs) <= ENGINES <==> forall b :: b in bs ==> b.key == "mysql" || b.key == "mariadb" || b.key == "postgresql" || b.key == "sqlite"
  {
    assert forall b :: b in bs ==> b.key in KeysOf(bs);
  }

  /** The formatters that are accepted have one of four shapes. */
  lemma FormatsAccepted(f: Format)
    ensures FormatOk(f) <==>
      || (exists v :: f == Format("string", Some(v), None, None, None, None, None, None, [], "", "", "", 0))
      || (exists v, prefix, strip, n :: 0 <= n <= 8 && f == Format("version", Some(v), None, None, None, None, None, None, [], "", prefix, strip, n))
      || (exists host, port, omit :: (omit == "" || IsPort(omit)) && f == Format("host-port", None, Some(host), port, None, None, None, None, [], omit, "", "", 0))
      || (exists host, port, scheme, user, password, path, query ::
           f == Format("url", None, Some(host), port, Some(scheme), user, password, Some(path), query, "", "", "", 0))
  {
    hide IsPort;
  }

  /** The variable names that are accepted: letters, digits, underscores and dots, of
      which digits and dots do not come first. */
  lemma VariablesAccepted(key: string)
    ensures MC.ValidVariable(key) <==>
      && key != "" && !('0' <= key[0] <= '9') && key[0] != '.'
      && forall i :: 0 <= i < |key| ==> 'a' <= key[i] <= 'z' || 'A' <= key[i] <= 'Z' || '0' <= key[i] <= '9' || key[i] == '_' || key[i] == '.'
  {
  }

  // ----- what formatters read -----

  predicate Shows(r: Result<Scalar, ValueError>, text: Result<string, ValueError>) {
    match r
    case Err(e) => text == Err(e)
    case Ok(Null) => text == Ok("")
    case Ok(Bool(b)) => text == Ok(if b then "true" else "false")
    case Ok(Str(s)) => text == Ok(s)
    case Ok(Number(n)) => text == Ok(n)
  }

  /** An operand shows its value as text: nothing for a missing one and for null. */
  lemma OperandShows(c: Context, rank: map<string, nat>, v: Value, o: Option<Value>, bound: nat)
    requires Below(c.manifest, rank, v, bound) && Within(v, o)
    ensures o.None? ==> TextOf(c, rank, v, o, bound) == Ok("")
    ensures o.Some? ==> Below(c.manifest, rank, o.value, bound) && Shows(Eval(c, rank, o.value, bound), TextOf(c, rank, v, o, bound))
  {
    hide Named, Ranked, Refs, Children, Eval;
    if o.Some? { BelowChild(c.manifest, rank, v, o.value, bound); }
  }

  predicate IsBracket(c: char) { c == '[' || c == ']' }

  /** Without the brackets around it, host is bare. */
  ghost predicate Unbracketed(host: string, bare: string) {
    && (bare == "" || (!IsBracket(bare[0]) && !IsBracket(bare[|bare| - 1])))
    && exists lead, trail :: AllBrackets(lead) && AllBrackets(trail) && host == lead + bare + trail
  }

  predicate AllBrackets(s: string) { forall i :: 0 <= i < |s| ==> IsBracket(s[i]) }

  lemma {:induction false} BracketsTrimmed(lead: string, bare: string, trail: string)
    requires AllBrackets(lead) && AllBrackets(trail) && (bare == "" || (!IsBracket(bare[0]) && !IsBracket(bare[|bare| - 1])))
    ensures TrimBrackets(lead + bare + trail) == bare
    decreases |lead| + |trail|
  {
    var s := lead + bare + trail;
    if lead != "" {
      assert s[1..] == lead[1..] + bare + trail && IsBracket(s[0]);
      BracketsTrimmed(lead[1..], bare, trail);
    } else if trail != "" {
      var most := trail[..|trail| - 1];
      assert s[..|s| - 1] == lead + bare + most && IsBracket(s[|s| - 1]);
      BracketsTrimmed(lead, bare, most);
      if bare == "" {
        assert s == trail && trail[1..] == "" + bare + trail[1..];
        BracketsTrimmed("", bare, trail[1..]);
      }
    } else {
      assert s == bare;
    }
  }

  /** Host and port, with the host in brackets where it has a colon. */
  function Joined(bare: string, port: string): string {
    if ':' in bare then "[" + bare + "]:" + port else bare + ":" + port
  }

  /** The texts that the operands of a formatter show. */
  datatype Texts = Texts(host: string, port: string, scheme: string, user: string, password: string, path: string)

  ghost predicate Shown(c: Context, rank: map<string, nat>, v: Value, bound: nat, t: Texts)
    requires Below(c.manifest, rank, v, bound) && v.format.Some?
  {
    var f := v.format.value;
    OperandsAreChildren(v);
    assert forall o :: o in Params(f) ==> Within(v, o);
    assert f.host in Params(f) && f.port in Params(f) && f.scheme in Params(f) && f.user in Params(f) && f.password in Params(f) && f.path in Params(f);
    && TextOf(c, rank, v, f.host, bound) == Ok(t.host) && TextOf(c, rank, v, f.port, bound) == Ok(t.port)
    && TextOf(c, rank, v, f.scheme, bound) == Ok(t.scheme) && TextOf(c, rank, v, f.path, bound) == Ok(t.path)
    && TextOf(c, rank, v, f.user, bound) == Ok(t.user) && TextOf(c, rank, v, f.password, bound) == Ok(t.password)
  }

  lemma ShownTexts(c: Context, rank: map<string, nat>, v: Value, bound: nat, t: Texts)
    requires Below(c.manifest, rank, v, bound) && v.format.Some? && Shown(c, rank, v, bound, t)
    ensures forall o :: o in Params(v.format.value) ==> Within(v, o)
    ensures TextsOf(c, rank, v, Params(v.format.value), bound) == Ok([t.host, t.port, t.scheme, t.user, t.password, t.path])
  {
    hide Named, Ranked, Refs, Children, TextOf, Below, Within, TextsOf;
    OperandsAreChildren(v);
    EachShown(c, rank, v, Params(v.format.value), [t.host, t.port, t.scheme, t.user, t.password, t.path], bound);
  }

  lemma {:induction false} EachShown(c: Context, rank: map<string, nat>, v: Value, os: seq<Option<Value>>, texts: seq<string>, bound: nat)
    requires Below(c.manifest, rank, v, bound) && (forall o :: o in os ==> Within(v, o)) && |texts| == |os|
    requires forall i :: 0 <= i < |os| ==> TextOf(c, rank, v, os[i], bound) == Ok(texts[i])
    ensures TextsOf(c, rank, v, os, bound) == Ok(texts)
    decreases |os|
  {
    hide Named, Ranked, Refs, Children, TextOf, Below, Within;
    if os != [] {
      EachShown(c, rank, v, os[..|os| - 1], texts[..|os| - 1], bound);
      assert texts == texts[..|os| - 1] + [texts[|os| - 1]];
    }
  }

  /** host-port: the host, with the port behind it unless it is to be omitted. */
  lemma HostPortReads(c: Context, rank: map<string, nat>, v: Value, bound: nat, t: Texts, bare: string)
    requires Below(c.manifest, rank, v, bound) && v.from == "" && v.byEngine.NoBranches? && v.format.Some? && v.format.value.kind == "host-port"
    requires Shown(c, rank, v, bound, t) && Unbracketed(t.host, bare)
    ensures Undefaulted(c, rank, v, bound) ==
      if t.host == "" then Err(EmptyHost)
      else if t.port == "" then Ok(Str(t.host))
      else if !IsPort(t.port) then Err(BadPort)
      else if t.port == v.format.value.omitPort then Ok(Str(t.host))
      else Ok(Str(Joined(bare, t.port)))
  {
    hide Named, Ranked, Refs, Children, TextOf, TextsOf, QueryTexts, Within, IsPort, TrimBrackets, Shown;
    ShownTexts(c, rank, v, bound, t);
    UnbracketedIs(t.host, bare);
  }

  lemma UnbracketedIs(host: string, bare: string)
    requires Unbracketed(host, bare)
    ensures TrimBrackets(host) == bare
  {
    var lead, trail :| AllBrackets(lead) && AllBrackets(trail) && host == lead + bare + trail;
    BracketsTrimmed(lead, bare, trail);
  }

  /** url: each part of the URL is the text of the operand of its name. */
  lemma UrlReads(c: Context, rank: map<string, nat>, v: Value, bound: nat, t: Texts, bare: string, query: seq<(string, string)>)
    requires Below(c.manifest, rank, v, bound) && v.from == "" && v.byEngine.NoBranches? && v.format.Some? && v.format.value.kind == "url"
    requires Shown(c, rank, v, bound, t) && Unbracketed(t.host, bare)
    requires (forall b :: b in v.format.value.query ==> b.value in Children(v)) && QueryTexts(c, rank, v, v.format.value.query, bound) == Ok(query)
    ensures Undefaulted(c, rank, v, bound) ==
      if t.host == "" then Err(EmptyHost)
      else if t.port != "" && !IsPort(t.port) then Err(BadPort)
      else if t.scheme == "" then Err(EmptyUrl)
      else
        var host := if t.port != "" then Joined(bare, t.port) else if ':' in t.host then "[" + bare + "]" else t.host;
        var credentials := if v.format.value.user == None && v.format.value.password == None then None else Some((t.user, t.password));
        Ok(Str(c.url(UrlParts(t.scheme, host, t.path, query, credentials))))
  {
    hide Named, Ranked, Refs, Children, TextOf, TextsOf, QueryTexts, Within, IsPort, TrimBrackets, Shown;
    ShownTexts(c, rank, v, bound, t);
    UnbracketedIs(t.host, bare);
  }

  /** The query has the parameters whose texts are not empty, in order. */
  lemma {:induction false} QueryReads(c: Context, rank: map<string, nat>, v: Value, bs: seq<Binding>, texts: seq<string>, bound: nat)
    requires Below(c.manifest, rank, v, bound) && (forall b :: b in bs ==> b.value in Children(v)) && |texts| == |bs|
    requires forall i :: 0 <= i < |bs| ==> TextOf(c, rank, v, Some(bs[i].value), bound) == Ok(texts[i])
    ensures QueryTexts(c, rank, v, bs, bound) == Ok(Filled(bs, texts))
    decreases |bs|
  {
    hide Named, Ranked, Refs, Children, Below, Eval;
    if bs != [] {
      var n := |bs| - 1;
      QueryReads(c, rank, v, bs[..n], texts[..n], bound);
      assert TextOf(c, rank, v, Some(bs[n].value), bound) == Ok(texts[n]);
      BelowChild(c.manifest, rank, v, bs[n].value, bound);
      FilledSnoc(bs[..n], texts[..n], bs[n], texts[n]);
      assert bs == bs[..n] + [bs[n]] && texts == texts[..n] + [texts[n]];
    }
  }

  function Filled(bs: seq<Binding>, texts: seq<string>): seq<(string, string)>
    requires |texts| == |bs|
  {
    if bs == [] then [] else (if texts[0] == "" then [] else [(bs[0].key, texts[0])]) + Filled(bs[1..], texts[1..])
  }

  lemma {:induction false} FilledSnoc(bs: seq<Binding>, texts: seq<string>, b: Binding, text: string)
    requires |texts| == |bs|
    ensures Filled(bs + [b], texts + [text]) == Filled(bs, texts) + if text == "" then [] else [(b.key, text)]
  {
    if bs != [] {
      assert (bs + [b])[1..] == bs[1..] + [b] && (texts + [text])[1..] == texts[1..] + [text];
      FilledSnoc(bs[1..], texts[1..], b, text);
    }
  }

  function Dots(s: string): nat { if s == "" then 0 else (if s[0] == '.' then 1 else 0) + Dots(s[1..]) }

  function Zeros(n: nat): string { if n == 0 then "" else ".0" + Zeros(n - 1) }

  /** version: blanks around the version and the named prefix, in any case, are
      dropped, and zeros fill it up to the wanted number of parts. */
  lemma VersionReads(f: Format, before: string, named: string, version: string, after: string)
    requires AllSpace(before) && AllSpace(after)
    requires version != "" && !IsSpace(version[0]) && !IsSpace(version[|version| - 1])
    requires Lower(named) == Lower(f.stripPrefix) || (named == "" && !(Lower(f.stripPrefix) <= Lower(version)))
    requires named == "" || !IsSpace(named[0])
    ensures VersionText(before + named + version + after, f) == f.prefix + (version + Zeros(if Dots(version) + 1 < f.minParts then f.minParts - Dots(version) - 1 else 0))
  {
    hide IsSpace, SplitOn, Padded, Join, TrimSpace, Lower, Dots, Zeros, VersionText;
    var text := before + named + version + after;
    assert TrimSpace(text) == named + version by {
      Regroup(before, named, version, after);
      Ends(named, version);
      TrimmedIs(before, named + version, after);
    }
    VersionOf(f, text, named, version);
    PaddedIs(version, f.minParts);
  }

  lemma Regroup(a: string, b: string, c: string, d: string)
    ensures a + b + c + d == a + (b + c) + d
  {
  }

  lemma Ends(named: string, version: string)
    requires version != ""
    ensures var value := named + version;
      value != "" && value[0] == (if named == "" then version[0] else named[0]) && value[|value| - 1] == version[|version| - 1]
  {
  }

  /** What is left of a trimmed version. */
  lemma VersionOf(f: Format, text: string, named: string, version: string)
    requires TrimSpace(text) == named + version && version != "" && !IsSpace(version[0]) && !IsSpace(version[|version| - 1])
    requires Lower(named) == Lower(f.stripPrefix) || (named == "" && !(Lower(f.stripPrefix) <= Lower(version)))
    ensures VersionText(text, f) == f.prefix + Join(Padded(SplitOn(version, '.'), f.minParts), ".")
  {
    hide IsSpace, SplitOn, Padded, Join, TrimSpace, Lower;
    if Lower(named) == Lower(f.stripPrefix) {
      NamedPrefix(f.stripPrefix, named, version);
      TrimmedIs("", version, "");
      assert "" + version + "" == version;
    } else {
      assert named + version == version;
    }
  }

  lemma NamedPrefix(prefix: string, named: string, version: string)
    requires Lower(named) == Lower(prefix)
    ensures Lower(prefix) <= Lower(named + version) && |named| == |prefix| && (named + version)[|prefix|..] == version
  {
    hide LowerChar;
    var l := Lower(named + version);
    assert forall i :: 0 <= i < |named| ==> l[i] == Lower(named)[i];
  }

  lemma PaddedIs(s: string, n: int)
    ensures Join(Padded(SplitOn(s, '.'), n), ".") == s + Zeros(if Dots(s) + 1 < n then n - Dots(s) - 1 else 0)
  {
    SplitBack(s, '.');
    DotsCounted(s);
    PadJoins(SplitOn(s, '.'), n);
  }

  lemma {:induction false} DotsCounted(s: string)
    ensures |SplitOn(s, '.')| == Dots(s) + 1
  {
    if s != "" { DotsCounted(s[1..]); }
  }

  lemma {:induction false} PadJoins(parts: seq<string>, n: int)
    requires parts != []
    ensures Join(Padded(parts, n), ".") == Join(parts, ".") + Zeros(if |parts| < n then n - |parts| else 0)
    decreases n - |parts|
  {
    if |parts| < n {
      PadJoins(parts + ["0"], n);
      JoinZero(parts);
    }
  }

  lemma {:induction false} JoinZero(parts: seq<string>)
    requires parts != []
    ensures Join(parts + ["0"], ".") == Join(parts, ".") + ".0"
  {
    if |parts| > 1 {
      assert (parts + ["0"])[1..] == parts[1..] + ["0"];
      JoinZero(parts[1..]);
    } else {
      assert (parts + ["0"])[1..] == ["0"];
    }
  }

  /** Of a text that is nothing but the named prefix the zeros are left. */
  lemma VersionBare(f: Format, before: string, named: string, after: string)
    requires AllSpace(before) && AllSpace(after) && Lower(named) == Lower(f.stripPrefix)
    requires named != "" && !IsSpace(named[0]) && !IsSpace(named[|named| - 1])
    ensures VersionText(before + named + after, f) == f.prefix + Zeros(if 1 < f.minParts then f.minParts - 1 else 0)
  {
    hide IsSpace, SplitOn, Padded, Join, TrimSpace, Lower, Dots, Zeros;
    TrimmedIs(before, named, after);
    NamedPrefix(f.stripPrefix, named, "");
    assert named + "" == named && "" + "" + "" == "";
    TrimmedIs("", "", "");
    PaddedIs("", f.minParts);
    assert Dots("") == 0 by { NoDots(); }
  }

  lemma NoDots()
    ensures Dots("") == 0
  {
  }

  /** A text that is all blank has no version. */
  lemma VersionBlank(f: Format, text: string)
    requires AllSpace(text)
    ensures VersionText(text, f) == ""
  {
    TrimmedIs(text, "", "");
    assert text + "" + "" == text;
  }

  // ----- ports -----

  /** The number that digits write, and whether they are digits. */
  function Decimal(s: string): nat { if s == "" || !IsDigit(s[|s| - 1]) then 0 else 10 * Decimal(s[..|s| - 1]) + (s[|s| - 1] as int - '0' as int) }

  predicate AllDigits(s: string) { s != "" && forall i :: 0 <= i < |s| ==> IsDigit(s[i]) }

  /** A port is a decimal number from 1 to 65535, perhaps with a plus sign. */
  lemma PortIs(s: string)
    ensures IsPort(s) <==>
      || (AllDigits(s) && 1 <= Decimal(s) <= 65535)
      || (s != "" && s[0] == '+' && AllDigits(s[1..]) && 1 <= Decimal(s[1..]) <= 65535)
  {
    hide ParseDigits, Decimal, AllDigits;
    NumberIs(s);
    if s != "" { NumberIs(s[1..]); }
    SignedDigits(s);
  }

  lemma NumberIs(s: string)
    ensures s != "" ==> ParseDigits(s, 0) == if AllDigits(s) then Some(Decimal(s)) else None
  {
    hide ParseDigits;
    DigitsIs(s, "");
    assert "" + s == s;
  }

  lemma SignedDigits(s: string)
    ensures AllDigits(s) ==> s != "" && s[0] != '+' && s[0] != '-'
    ensures !AllDigits("")
  {
  }

  /** Reading on from a, whose number is known. */
  lemma {:induction false} DigitsIs(s: string, a: string)
    requires a == "" || AllDigits(a)
    ensures ParseDigits(s, Decimal(a)) == if s == "" || AllDigits(s) then Some(Decimal(a + s)) else None
    decreases |s|
  {
    if s == "" {
      assert a + s == a;
    } else if IsDigit(s[0]) {
      var b := a + [s[0]];
      assert b[..|b| - 1] == a && a + s == b + s[1..];
      DigitsIs(s[1..], b);
      assert AllDigits(s) <==> s[1..] == "" || AllDigits(s[1..]);
    }
  }
}
