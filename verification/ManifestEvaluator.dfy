/** frameworkValueState: evaluation with a memo, and what acceptance guarantees. */
module ManifestEvaluator {
  import opened Text
  import opened PhpScalars
  import opened ManifestValues
  import opened ManifestEval
  import Meaning = ManifestMeaning

  // ----- plain evaluation does not depend on the ranking -----

  lemma {:induction false} SameReference(c: Context, r1: map<string, nat>, r2: map<string, nat>, ref: string, b1: nat, b2: nat)
    requires Ranked(Named(c.manifest), r1) && Ranked(Named(c.manifest), r2)
    requires !IsDatabase(ref) && !IsBuiltin(ref) && ref in Named(c.manifest) ==> ref in r1 && r1[ref] < b1 && ref in r2 && r2[ref] < b2
    ensures Reference(c, r1, ref, b1) == Reference(c, r2, ref, b2)
    decreases b1, 0
  {
    hide Named, Eval, Ranked;
    if !IsDatabase(ref) && !IsBuiltin(ref) && Lookup(c.manifest, ref).Some? {
      BelowNamed(c.manifest, r1, ref);
      BelowNamed(c.manifest, r2, ref);
      SameEval(c, r1, r2, Named(c.manifest)[ref], r1[ref], r2[ref]);
    }
  }

  lemma {:induction false} SamePlain(c: Context, r1: map<string, nat>, r2: map<string, nat>, v: Value, b1: nat, b2: nat)
    requires Below(c.manifest, r1, v, b1) && Below(c.manifest, r2, v, b2)
    ensures Undefaulted(c, r1, v, b1) == Undefaulted(c, r2, v, b2)
    decreases b1, 1, v, 3
  {
    hide Named, Eval, Reference, Formatted, Ranked;
    if v.from != "" {
      assert v.from in Refs(v) || IsDatabase(v.from) || IsBuiltin(v.from);
      SameReference(c, r1, r2, v.from, b1, b2);
    } else if v.byEngine.Branches? {
      if c.database.Some? && Branch(v.byEngine.list, c.database.value.engine).Some? {
        var b := Branch(v.byEngine.list, c.database.value.engine).value;
        BelowChild(c.manifest, r1, v, b, b1);
        BelowChild(c.manifest, r2, v, b, b2);
        SameEval(c, r1, r2, b, b1, b2);
      }
    } else if v.format.Some? {
      SameFormatted(c, r1, r2, v, b1, b2);
    }
  }

  lemma {:induction false} SameEval(c: Context, r1: map<string, nat>, r2: map<string, nat>, v: Value, b1: nat, b2: nat)
    requires Below(c.manifest, r1, v, b1) && Below(c.manifest, r2, v, b2)
    ensures Eval(c, r1, v, b1) == Eval(c, r2, v, b2)
    decreases b1, 1, v, 4
  {
    hide Named, Undefaulted, Ranked, Refs;
    SamePlain(c, r1, r2, v, b1, b2);
    if v.default.Some? {
      BelowChild(c.manifest, r1, v, v.default.value, b1);
      BelowChild(c.manifest, r2, v, v.default.value, b2);
      SameEval(c, r1, r2, v.default.value, b1, b2);
    }
  }

  lemma {:induction false} SameText(c: Context, r1: map<string, nat>, r2: map<string, nat>, v: Value, o: Option<Value>, b1: nat, b2: nat)
    requires Below(c.manifest, r1, v, b1) && Below(c.manifest, r2, v, b2) && Within(v, o)
    ensures TextOf(c, r1, v, o, b1) == TextOf(c, r2, v, o, b2)
    decreases b1, 1, v, 0
  {
    hide Named, Eval, Ranked, Refs;
    if o.Some? {
      BelowChild(c.manifest, r1, v, o.value, b1);
      BelowChild(c.manifest, r2, v, o.value, b2);
      SameEval(c, r1, r2, o.value, b1, b2);
    }
  }

  lemma {:induction false} SameTexts(c: Context, r1: map<string, nat>, r2: map<string, nat>, v: Value, os: seq<Option<Value>>, b1: nat, b2: nat)
    requires Below(c.manifest, r1, v, b1) && Below(c.manifest, r2, v, b2) && forall o :: o in os ==> Within(v, o)
    ensures TextsOf(c, r1, v, os, b1) == TextsOf(c, r2, v, os, b2)
    decreases b1, 1, v, 1, |os|
  {
    hide Named, TextOf, Ranked, Refs, Below, Within;
    if os != [] {
      SameTexts(c, r1, r2, v, os[..|os| - 1], b1, b2);
      SameText(c, r1, r2, v, os[|os| - 1], b1, b2);
    }
  }

  lemma {:induction false} SameQuery(c: Context, r1: map<string, nat>, r2: map<string, nat>, v: Value, bs: seq<Binding>, b1: nat, b2: nat)
    requires Below(c.manifest, r1, v, b1) && Below(c.manifest, r2, v, b2) && forall b :: b in bs ==> b.value in Children(v)
    ensures QueryTexts(c, r1, v, bs, b1) == QueryTexts(c, r2, v, bs, b2)
    decreases b1, 1, v, 1, bs
  {
    hide Named, Eval, Ranked, Refs;
    if bs != [] {
      var last := bs[|bs| - 1];
      SameQuery(c, r1, r2, v, bs[..|bs| - 1], b1, b2);
      BelowChild(c.manifest, r1, v, last.value, b1);
      BelowChild(c.manifest, r2, v, last.value, b2);
      SameEval(c, r1, r2, last.value, b1, b2);
    }
  }

  lemma {:induction false} SameFormatted(c: Context, r1: map<string, nat>, r2: map<string, nat>, v: Value, b1: nat, b2: nat)
    requires Below(c.manifest, r1, v, b1) && Below(c.manifest, r2, v, b2) && v.format.Some?
    ensures Formatted(c, r1, v, b1) == Formatted(c, r2, v, b2)
    decreases b1, 1, v, 2
  {
    hide Named, TextOf, TextsOf, QueryTexts, Ranked, Refs, Children, Within, VersionText, HostPort, UrlOf, IsPort, Below, Params;
    var f := v.format.value;
    OperandsAreChildren(v);
    SameText(c, r1, r2, v, f.value, b1, b2);
    SameTexts(c, r1, r2, v, Params(f), b1, b2);
    SameQuery(c, r1, r2, v, f.query, b1, b2);
  }

  // ----- no unknown reference -----

  ghost predicate Known<T>(r: Result<T, ValueError>) { r.Err? ==> !r.error.UnknownReference? }

  ghost predicate AllSound(m: Manifest) { forall k :: k in Named(m) ==> Sound(m, Named(m)[k]) }

  lemma NodeDatabase(m: Manifest, v: Value, db: Database)
    requires Sound(m, v) && v.from != "" && IsDatabase(v.from)
    ensures DatabaseField(db, v.from[|"database."|..]).Some?
  {
  }

  lemma SoundChild(m: Manifest, v: Value, c: Value)
    requires Sound(m, v) && c in Children(v)
    ensures Sound(m, c)
  {
  }

  /** Where every expression was accepted, evaluation never meets an unknown
      reference, whatever the credentials. */
  lemma {:induction false} NeverUnknown(c: Context, rank: map<string, nat>, v: Value, bound: nat)
    requires Below(c.manifest, rank, v, bound) && Sound(c.manifest, v) && AllSound(c.manifest)
    ensures Known(Eval(c, rank, v, bound))
    decreases bound, 1, v, 4
  {
    hide Named, Undefaulted, Ranked, Refs, NodeOk, AllSound;
    KnownPlain(c, rank, v, bound);
    if v.default.Some? {
      BelowChild(c.manifest, rank, v, v.default.value, bound);
      SoundChild(c.manifest, v, v.default.value);
      NeverUnknown(c, rank, v.default.value, bound);
    }
  }

  lemma {:induction false} KnownPlain(c: Context, rank: map<string, nat>, v: Value, bound: nat)
    requires Below(c.manifest, rank, v, bound) && Sound(c.manifest, v) && AllSound(c.manifest)
    ensures Known(Undefaulted(c, rank, v, bound))
    decreases bound, 1, v, 3
  {
    hide Named, Eval, Formatted, Ranked, NodeOk;
    if v.from != "" {
      if IsDatabase(v.from) {
        if c.database.Some? { NodeDatabase(c.manifest, v, c.database.value); }
      } else if !IsBuiltin(v.from) {
        SoundRefs(c.manifest, v);
        assert v.from in Refs(v);
        BelowNamed(c.manifest, rank, v.from);
        NeverUnknown(c, rank, Named(c.manifest)[v.from], rank[v.from]);
      }
    } else if v.byEngine.Branches? {
      if c.database.Some? && Branch(v.byEngine.list, c.database.value.engine).Some? {
        var b := Branch(v.byEngine.list, c.database.value.engine).value;
        BelowChild(c.manifest, rank, v, b, bound);
        SoundChild(c.manifest, v, b);
        NeverUnknown(c, rank, b, bound);
      }
    } else if v.format.Some? {
      KnownFormatted(c, rank, v, bound);
    }
  }

  lemma {:induction false} KnownText(c: Context, rank: map<string, nat>, v: Value, o: Option<Value>, bound: nat)
    requires Below(c.manifest, rank, v, bound) && Within(v, o) && Sound(c.manifest, v) && AllSound(c.manifest)
    ensures Known(TextOf(c, rank, v, o, bound))
    decreases bound, 1, v, 0
  {
    hide Named, Eval, Ranked, Refs, NodeOk, AllSound;
    if o.Some? {
      BelowChild(c.manifest, rank, v, o.value, bound);
      SoundChild(c.manifest, v, o.value);
      NeverUnknown(c, rank, o.value, bound);
    }
  }

  lemma {:induction false} KnownTexts(c: Context, rank: map<string, nat>, v: Value, os: seq<Option<Value>>, bound: nat)
    requires Below(c.manifest, rank, v, bound) && (forall o :: o in os ==> Within(v, o)) && Sound(c.manifest, v) && AllSound(c.manifest)
    ensures Known(TextsOf(c, rank, v, os, bound))
    decreases bound, 1, v, 1, |os|
  {
    hide Named, TextOf, Ranked, Refs, Below, Within, Sound, AllSound;
    if os != [] {
      KnownTexts(c, rank, v, os[..|os| - 1], bound);
      KnownText(c, rank, v, os[|os| - 1], bound);
    }
  }

  lemma {:induction false} KnownQuery(c: Context, rank: map<string, nat>, v: Value, bs: seq<Binding>, bound: nat)
    requires Below(c.manifest, rank, v, bound) && (forall b :: b in bs ==> b.value in Children(v)) && Sound(c.manifest, v) && AllSound(c.manifest)
    ensures Known(QueryTexts(c, rank, v, bs, bound))
    decreases bound, 1, v, 1, bs
  {
    hide Named, Eval, Ranked, Refs, NodeOk, AllSound;
    if bs != [] {
      var last := bs[|bs| - 1];
      KnownQuery(c, rank, v, bs[..|bs| - 1], bound);
      BelowChild(c.manifest, rank, v, last.value, bound);
      SoundChild(c.manifest, v, last.value);
      NeverUnknown(c, rank, last.value, bound);
    }
  }

  lemma {:induction false} KnownFormatted(c: Context, rank: map<string, nat>, v: Value, bound: nat)
    requires Below(c.manifest, rank, v, bound) && v.format.Some? && Sound(c.manifest, v) && AllSound(c.manifest)
    ensures Known(Formatted(c, rank, v, bound))
    decreases bound, 1, v, 2
  {
    hide Named, TextOf, TextsOf, QueryTexts, Ranked, Refs, Children, Within, VersionText, HostPort, UrlOf, IsPort, Below, Sound, AllSound, Params;
    var f := v.format.value;
    OperandsAreChildren(v);
    KnownText(c, rank, v, f.value, bound);
    KnownTexts(c, rank, v, Params(f), bound);
    KnownQuery(c, rank, v, f.query, bound);
  }

  /** An accepted expression can be evaluated at some bound. */
  lemma AcceptedBelow(m: Manifest, rank: map<string, nat>, v: Value) returns (bound: nat)
    requires Ranked(Named(m), rank) && Sound(m, v)
    ensures Below(m, rank, v, bound)
  {
    hide Named, Sound, Refs;
    SoundRefs(m, v);
    bound := AboveAll(rank);
  }

  lemma AboveAll(rank: map<string, nat>) returns (bound: nat)
    ensures forall k :: k in rank ==> rank[k] < bound
  {
    var keys := rank.Keys;
    bound := 0;
    while keys != {}
      invariant keys <= rank.Keys && forall k :: k in rank.Keys - keys ==> rank[k] < bound
      decreases |keys|
    {
      var k :| k in keys;
      if rank[k] >= bound { bound := rank[k] + 1; }
      keys := keys - {k};
    }
  }

  /** On an accepted manifest every accepted expression has a value or one of the
      runtime errors, but never an unknown reference; and that outcome does not
      depend on how the references are ranked. */
  lemma AcceptedEvaluates(c: Context, rank: map<string, nat>, v: Value) returns (bound: nat)
    requires Ranked(Named(c.manifest), rank) && AllSound(c.manifest) && Sound(c.manifest, v)
    ensures Below(c.manifest, rank, v, bound) && Known(Eval(c, rank, v, bound))
    ensures forall r2, b2 :: Below(c.manifest, r2, v, b2) ==> Eval(c, r2, v, b2) == Eval(c, rank, v, bound)
  {
    hide Named, Sound, AllSound, Ranked, Eval, Below;
    bound := AcceptedBelow(c.manifest, rank, v);
    NeverUnknown(c, rank, v, bound);
    forall r2, b2: nat | Below(c.manifest, r2, v, b2)
      ensures Eval(c, r2, v, b2) == Eval(c, rank, v, bound)
    {
      SameEval(c, rank, r2, v, bound, b2);
    }
  }

  // ----- the memo -----

  class ValueState {
    const context: Context
    ghost const rank: map<string, nat>
    var memo: map<string, Scalar>

    /** The memo holds what plain evaluation of the named values returns. */
    ghost predicate Valid()
      reads this
    {
      && Ranked(Named(context.manifest), rank)
      && forall k :: k in memo ==> !IsDatabase(k) && !IsBuiltin(k) && k in Named(context.manifest) && Remembered(context, rank, k, memo[k])
    }

    constructor (c: Context, ghost r: map<string, nat>)
      requires Ranked(Named(c.manifest), r)
      ensures Valid() && context == c && rank == r && memo == map[]
    {
      context, rank, memo := c, r, map[];
    }

    /** reference */
    method ReferenceValue(ref: string, ghost bound: nat) returns (r: Result<Scalar, ValueError>)
      requires Valid() && (!IsDatabase(ref) && !IsBuiltin(ref) && ref in Named(context.manifest) ==> rank[ref] < bound)
      modifies this`memo
      ensures Valid() && r == Reference(context, rank, ref, bound)
      decreases bound, 0
    {
      hide Named, Ranked, Eval, Below;
      if ref in memo {
        RememberedAt(context, rank, ref, memo[ref], bound);
        return Ok(memo[ref]);
      }
      if ref == "server.url" { return Ok(Str(context.serverUrl)); }
      if ref == "mailpit.smtp-port" { return Ok(context.mailpitPort); }
      if IsDatabase(ref) {
        if context.database.None? { return Err(NeedsDatabase); }
        var field := DatabaseField(context.database.value, ref[|"database."|..]);
        match field
        case None => return Err(UnknownReference(ref));
        case Some(text) => return Ok(Str(text));
      }
      var value := Lookup(context.manifest, ref);
      if value.None? { return Err(UnknownReference(ref)); }
      BelowNamed(context.manifest, rank, ref);
      r := EvalValue(value.value, rank[ref]);
      if r.Ok? {
        Remember(context, rank, ref, r.value, bound);
        memo := memo[ref := r.value];
      }
    }

    /** eval */
    method EvalValue(v: Value, ghost bound: nat) returns (r: Result<Scalar, ValueError>)
      requires Valid() && Below(context.manifest, rank, v, bound)
      modifies this`memo
      ensures Valid() && r == Eval(context, rank, v, bound)
      ensures Meaning.ReadsBuiltin(context, v, r)
      decreases bound, 1, v, 4
    {
      hide Named, Ranked, Valid, Below, Refs, Children, Reference, Formatted, Undefaulted, Meaning.ReadsBuiltin;
      Meaning.BuiltinReads(context, rank, v, bound);
      var result: Scalar := v.literal;
      if v.from != "" {
        FromBelow(context.manifest, rank, v, bound);
        var s := ReferenceValue(v.from, bound);
        UndefaultedIs(context, rank, v, bound);
        if s.Err? { return s; }
        result := s.value;
      } else if v.byEngine.Branches? {
        UndefaultedIs(context, rank, v, bound);
        if context.database.None? { return Err(NeedsDatabase); }
        var engine := context.database.value.engine;
        var branch := Branch(v.byEngine.list, engine);
        if branch.None? { return Err(NoEngineValue(engine)); }
        BranchChild(v, engine);
        BelowChild(context.manifest, rank, v, branch.value, bound);
        var s := EvalValue(branch.value, bound);
        if s.Err? { return s; }
        result := s.value;
      } else if v.format.Some? {
        UndefaultedIs(context, rank, v, bound);
        var s := FormatValue(v, bound);
        if s.Err? { return Err(s.error); }
        result := Str(s.value);
      } else {
        UndefaultedIs(context, rank, v, bound);
      }
      if v.default.Some? && IsEmpty(result) {
        DefaultChild(v);
        BelowChild(context.manifest, rank, v, v.default.value, bound);
        r := EvalValue(v.default.value, bound);
        return;
      }
      return Ok(result);
    }

    /** text */
    method TextValue(v: Value, o: Option<Value>, ghost bound: nat) returns (r: Result<string, ValueError>)
      requires Valid() && Below(context.manifest, rank, v, bound) && Within(v, o)
      modifies this`memo
      ensures Valid() && r == TextOf(context, rank, v, o, bound)
      decreases bound, 1, v, 0
    {
      hide Named, Ranked, Valid, Below, Refs, Children, Eval;
      if o.None? { return Ok(""); }
      BelowChild(context.manifest, rank, v, o.value, bound);
      var s := EvalValue(o.value, bound);
      match s
      case Err(e) => return Err(e);
      case Ok(value) => return Ok(ScalarText(value));
    }

    /** format */
    method FormatValue(v: Value, ghost bound: nat) returns (r: Result<string, ValueError>)
      requires Valid() && Below(context.manifest, rank, v, bound) && v.format.Some?
      modifies this`memo
      ensures Valid() && r == Formatted(context, rank, v, bound)
      decreases bound, 1, v, 2
    {
      hide Named, Ranked, Valid, Below, Refs, Children, Eval, TextOf, TextsOf, QueryTexts, Within, Operands, VersionText, IsPort, UrlOf, Params;
      var f := v.format.value;
      OperandsAreChildren(v);
      if f.kind == "string" || f.kind == "version" {
        var text := TextValue(v, f.value, bound);
        if text.Err? || f.kind == "string" { return text; }
        return Ok(VersionText(text.value, f));
      }
      var texts := TextValues(v, Params(f), bound);
      if texts.Err? { return Err(texts.error); }
      var params := texts.value;
      var host, port := params[0], params[1];
      if host == "" { return Err(EmptyHost); }
      if port != "" && !IsPort(port) { return Err(BadPort); }
      if f.kind == "host-port" { return Ok(HostPort(f, host, port)); }
      var query := QueryValues(v, f.query, bound);
      if query.Err? { return Err(query.error); }
      if params[2] == "" { return Err(EmptyUrl); }
      return Ok(context.url(UrlOf(f, params, query.value)));
    }

    /** The loop over the operands. */
    method TextValues(v: Value, os: seq<Option<Value>>, ghost bound: nat) returns (r: Result<seq<string>, ValueError>)
      requires Valid() && Below(context.manifest, rank, v, bound) && forall o :: o in os ==> Within(v, o)
      modifies this`memo
      ensures Valid() && r == TextsOf(context, rank, v, os, bound)
      decreases bound, 1, v, 1
    {
      hide Named, Ranked, Valid, Below, Refs, Children, Eval, TextOf, Within;
      var texts: seq<string> := [];
      var i := 0;
      while i < |os|
        invariant i <= |os| && Valid() && TextsOf(context, rank, v, os[..i], bound) == Ok(texts)
      {
        assert os[..i + 1][..i] == os[..i] && os[..i + 1][i] == os[i];
        var text := TextValue(v, os[i], bound);
        if text.Err? {
          TextsFail(context, rank, v, os, i + 1, bound);
          return Err(text.error);
        }
        texts := texts + [text.value];
        i := i + 1;
      }
      assert os[..i] == os;
      return Ok(texts);
    }

    /** The loop over the query parameters. */
    method QueryValues(v: Value, bs: seq<Binding>, ghost bound: nat) returns (r: Result<seq<(string, string)>, ValueError>)
      requires Valid() && Below(context.manifest, rank, v, bound) && forall b :: b in bs ==> b.value in Children(v)
      modifies this`memo
      ensures Valid() && r == QueryTexts(context, rank, v, bs, bound)
      decreases bound, 1, v, 1
    {
      hide Named, Ranked, Valid, Below, Refs, Children, Eval;
      var query: seq<(string, string)> := [];
      var i := 0;
      while i < |bs|
        invariant i <= |bs| && Valid() && QueryTexts(context, rank, v, bs[..i], bound) == Ok(query)
      {
        var b := bs[i];
        assert bs[..i + 1][..i] == bs[..i] && bs[..i + 1][i] == b;
        BelowChild(context.manifest, rank, v, b.value, bound);
        var s := EvalValue(b.value, bound);
        if s.Err? {
          QueryFails(context, rank, v, bs, i + 1, bound);
          return Err(s.error);
        }
        if ScalarText(s.value) != "" {
          query := query + [(b.key, ScalarText(s.value))];
        } else {
          assert query + [] == query;
        }
        i := i + 1;
      }
      assert bs[..i] == bs;
      return Ok(query);
    }
  }

  /** s is what plain evaluation of the named value k returns. */
  ghost predicate Remembered(c: Context, rank: map<string, nat>, k: string, s: Scalar)
    requires Ranked(Named(c.manifest), rank) && k in Named(c.manifest) && !IsDatabase(k) && !IsBuiltin(k)
  {
    Reference(c, rank, k, rank[k] + 1) == Ok(s)
  }

  lemma RememberedAt(c: Context, rank: map<string, nat>, k: string, s: Scalar, bound: nat)
    requires Ranked(Named(c.manifest), rank) && k in Named(c.manifest) && !IsDatabase(k) && !IsBuiltin(k)
    requires Remembered(c, rank, k, s) && rank[k] < bound
    ensures Reference(c, rank, k, bound) == Ok(s)
  {
    hide Named, Eval;
  }

  lemma Remember(c: Context, rank: map<string, nat>, k: string, s: Scalar, bound: nat)
    requires Ranked(Named(c.manifest), rank) && k in Named(c.manifest) && !IsDatabase(k) && !IsBuiltin(k)
    requires rank[k] < bound && Reference(c, rank, k, bound) == Ok(s)
    ensures Remembered(c, rank, k, s)
  {
    hide Named, Eval;
  }

  lemma FromBelow(m: Manifest, rank: map<string, nat>, v: Value, bound: nat)
    requires Below(m, rank, v, bound) && v.from != ""
    ensures Ranked(Named(m), rank) && (!IsDatabase(v.from) && !IsBuiltin(v.from) && v.from in Named(m) ==> v.from in rank && rank[v.from] < bound)
  {
  }

  lemma UndefaultedIs(c: Context, rank: map<string, nat>, v: Value, bound: nat)
    requires Below(c.manifest, rank, v, bound)
    ensures v.from != "" ==> Ranked(Named(c.manifest), rank) && (!IsDatabase(v.from) && !IsBuiltin(v.from) && v.from in Named(c.manifest) ==> v.from in rank && rank[v.from] < bound)
    ensures v.from != "" ==> Undefaulted(c, rank, v, bound) == Reference(c, rank, v.from, bound)
    ensures v.from == "" && v.byEngine.Branches? && c.database.None? ==> Undefaulted(c, rank, v, bound) == Err(NeedsDatabase)
    ensures v.from == "" && v.byEngine.Branches? && c.database.Some? ==>
      match Branch(v.byEngine.list, c.database.value.engine)
      case None => Undefaulted(c, rank, v, bound) == Err(NoEngineValue(c.database.value.engine))
      case Some(b) => Below(c.manifest, rank, b, bound) && Undefaulted(c, rank, v, bound) == Eval(c, rank, b, bound)
    ensures v.from == "" && v.byEngine.NoBranches? && v.format.Some? ==>
      match Formatted(c, rank, v, bound) case Err(e) => Undefaulted(c, rank, v, bound) == Err(e) case Ok(t) => Undefaulted(c, rank, v, bound) == Ok(Str(t))
    ensures v.from == "" && v.byEngine.NoBranches? && v.format.None? ==> Undefaulted(c, rank, v, bound) == Ok(v.literal)
  {
    hide Named, Ranked, Eval, Formatted, Reference;
    if v.from != "" { FromBelow(c.manifest, rank, v, bound); }
    if v.byEngine.Branches? && c.database.Some? && Branch(v.byEngine.list, c.database.value.engine).Some? {
      BelowChild(c.manifest, rank, v, Branch(v.byEngine.list, c.database.value.engine).value, bound);
    }
  }

  lemma BranchChild(v: Value, engine: string)
    requires v.byEngine.Branches? && Branch(v.byEngine.list, engine).Some?
    ensures Branch(v.byEngine.list, engine).value in Children(v)
  {
  }

  lemma DefaultChild(v: Value)
    requires v.default.Some?
    ensures v.default.value in Children(v)
  {
  }

  /** An error in one operand is the error of all. */
  lemma {:induction false} TextsFail(c: Context, rank: map<string, nat>, v: Value, os: seq<Option<Value>>, n: nat, bound: nat)
    requires Below(c.manifest, rank, v, bound) && (forall o :: o in os ==> Within(v, o)) && n <= |os|
    requires TextsOf(c, rank, v, os[..n], bound).Err?
    ensures TextsOf(c, rank, v, os, bound) == Err(TextsOf(c, rank, v, os[..n], bound).error)
    decreases |os|
  {
    hide Named, Ranked, TextOf, Below, Children, Within;
    if n == |os| {
      assert os[..n] == os;
    } else {
      var rest := os[..|os| - 1];
      assert rest[..n] == os[..n];
      TextsFail(c, rank, v, rest, n, bound);
    }
  }

  /** An error in one parameter is the error of the whole query. */
  lemma {:induction false} QueryFails(c: Context, rank: map<string, nat>, v: Value, bs: seq<Binding>, n: nat, bound: nat)
    requires Below(c.manifest, rank, v, bound) && (forall b :: b in bs ==> b.value in Children(v)) && n <= |bs|
    requires QueryTexts(c, rank, v, bs[..n], bound).Err?
    ensures QueryTexts(c, rank, v, bs, bound) == Err(QueryTexts(c, rank, v, bs[..n], bound).error)
    decreases |bs|
  {
    hide Named, Ranked, Eval, Below, Children;
    if n == |bs| {
      assert bs[..n] == bs;
    } else {
      var rest := bs[..|bs| - 1];
      assert rest[..n] == bs[..n];
      QueryFails(c, rank, v, rest, n, bound);
    }
  }
}
