/** runFrameworkAction: all values are resolved, then one complete file is edited. */
module FrameworkActions {
  import opened Text
  import opened PhpLexer
  import opened PhpScalars
  import opened ManifestValues
  import opened ManifestEval
  import opened ManifestEvaluator
  import W = DotenvWriter
  import D = Dotenv
  import T = DotenvText
  import P = PhpArrayActions
  import L = PhpArrayLens
  import M = PhpArrayPatcher
  import C = PhpConstantPatch
  import CP = PhpConstantPatcher
  import R = PhpConstantRuns
  import I = PhpInclude
  import IP = PhpIncludePatcher
  import PL = Templates

  datatype ActionError = OfValue(v: ValueError) | OfPhp(p: PhpError) | MissingKey | MissingFile

  /** One group of array values under a common path. */
  datatype Update = Update(path: seq<string>, values: seq<Binding>, order: seq<string>)

  // ----- the order of keys -----

  function Keys(bs: seq<Binding>): (r: seq<string>)
    ensures |r| == |bs| && forall i :: 0 <= i < |bs| ==> r[i] == bs[i].key
  {
    seq(|bs|, i requires 0 <= i < |bs| => bs[i].key)
  }

  function NotIn(keys: seq<string>, order: seq<string>): seq<string> {
    if keys == [] then []
    else NotIn(keys[..|keys| - 1], order) + if keys[|keys| - 1] in order then [] else [keys[|keys| - 1]]
  }

  function Ordered(bs: seq<Binding>, order: seq<string>): seq<string> { order + NotIn(Keys(bs), order) }

  /** What the manifest checks of an order: it lists some of the keys, each once. */
  predicate ValidOrder(bs: seq<Binding>, order: seq<string>) {
    R.Distinct(Keys(bs)) && R.Distinct(order) && forall k :: k in order ==> k in Keys(bs)
  }

  /** orderedFrameworkKeys, on a mapping listed in key order. */
  method OrderedKeys(bs: seq<Binding>, order: seq<string>) returns (keys: seq<string>)
    ensures keys == Ordered(bs, order)
  {
    keys := order;
    var i := 0;
    assert order + [] == order;
    while i < |bs|
      invariant i <= |bs| && keys == order + NotIn(Keys(bs)[..i], order)
    {
      assert Keys(bs)[..i + 1][..i] == Keys(bs)[..i];
      if bs[i].key !in order { keys := keys + [bs[i].key]; }
      i := i + 1;
    }
    assert Keys(bs)[..i] == Keys(bs);
  }

  lemma {:induction false} NotInKeys(keys: seq<string>, order: seq<string>)
    requires R.Distinct(keys)
    ensures R.Distinct(NotIn(keys, order))
    ensures forall k :: k in NotIn(keys, order) <==> k in keys && k !in order
    decreases |keys|
  {
    if keys != [] {
      var n := |keys| - 1;
      assert forall i :: 0 <= i < n ==> keys[..n][i] == keys[i];
      NotInKeys(keys[..n], order);
      assert keys == keys[..n] + [keys[n]];
    }
  }

  /** The ordered keys are all the keys, each once, and the given order comes first. */
  lemma OrderedIsAll(bs: seq<Binding>, order: seq<string>)
    requires ValidOrder(bs, order)
    ensures R.Distinct(Ordered(bs, order)) && order <= Ordered(bs, order)
    ensures forall k :: k in Ordered(bs, order) <==> k in Keys(bs)
  {
    NotInKeys(Keys(bs), order);
    var keys, rest := Ordered(bs, order), NotIn(Keys(bs), order);
    forall i, j | 0 <= i < j < |keys|
      ensures keys[i] != keys[j]
    {
      if j >= |order| { assert keys[j] == rest[j - |order|] && keys[j] in rest; }
    }
  }

  // ----- resolving values -----

  ghost predicate AllBelow(c: Context, rank: map<string, nat>, bs: seq<Binding>, bound: nat) {
    forall i :: 0 <= i < |bs| ==> Below(c.manifest, rank, bs[i].value, bound)
  }

  lemma BranchBelow(c: Context, rank: map<string, nat>, bs: seq<Binding>, key: string, bound: nat)
    requires AllBelow(c, rank, bs, bound)
    ensures Branch(bs, key).Some? ==> Below(c.manifest, rank, Branch(bs, key).value, bound)
  {
  }

  /** What the expression of a key evaluates to. */
  ghost function ValueFor(c: Context, rank: map<string, nat>, bs: seq<Binding>, key: string, bound: nat): Result<Scalar, ActionError>
    requires AllBelow(c, rank, bs, bound)
  {
    BranchBelow(c, rank, bs, key, bound);
    match Branch(bs, key)
    case None => Err(MissingKey)
    case Some(v) =>
      match Eval(c, rank, v, bound)
      case Err(e) => Err(OfValue(e))
      case Ok(s) => Ok(s)
  }

  method Resolve(bs: seq<Binding>, key: string, state: ValueState, ghost bound: nat) returns (r: Result<Scalar, ActionError>)
    requires state.Valid() && AllBelow(state.context, state.rank, bs, bound)
    modifies state`memo
    ensures state.Valid() && r == ValueFor(state.context, state.rank, bs, key, bound)
  {
    hide Below, Eval, ValueState.Valid, AllBelow;
    BranchBelow(state.context, state.rank, bs, key, bound);
    var v := Branch(bs, key);
    if v.None? { return Err(MissingKey); }
    var s := state.EvalValue(v.value, bound);
    match s
    case Err(e) => return Err(OfValue(e));
    case Ok(value) => return Ok(value);
  }

  ghost predicate AllResolve(c: Context, rank: map<string, nat>, bs: seq<Binding>, keys: seq<string>, bound: nat)
    requires AllBelow(c, rank, bs, bound)
  {
    forall k :: k in keys ==> ValueFor(c, rank, bs, k, bound).Ok?
  }

  ghost function Values(c: Context, rank: map<string, nat>, bs: seq<Binding>, keys: seq<string>, bound: nat): map<string, Scalar>
    requires AllBelow(c, rank, bs, bound) && AllResolve(c, rank, bs, keys, bound)
  {
    map k | k in keys :: ValueFor(c, rank, bs, k, bound).value
  }

  /** The first loop of runFrameworkAction. */
  method ResolveAll(bs: seq<Binding>, keys: seq<string>, state: ValueState, ghost bound: nat) returns (r: Result<map<string, Scalar>, ActionError>)
    requires state.Valid() && AllBelow(state.context, state.rank, bs, bound)
    modifies state`memo
    ensures state.Valid() && (r.Ok? <==> AllResolve(state.context, state.rank, bs, keys, bound))
    ensures r.Ok? ==> r.value == Values(state.context, state.rank, bs, keys, bound)
  {
    hide ValueState.Valid, AllBelow, ValueFor;
    var values: map<string, Scalar> := map[];
    var i := 0;
    while i < |keys|
      invariant i <= |keys| && state.Valid() && AllResolve(state.context, state.rank, bs, keys[..i], bound)
      invariant values == Values(state.context, state.rank, bs, keys[..i], bound)
    {
      var s := Resolve(bs, keys[i], state, bound);
      if s.Err? {
        assert keys[i] in keys;
        return Err(s.error);
      }
      assert keys[..i + 1] == keys[..i] + [keys[i]];
      values := values[keys[i] := s.value];
      i := i + 1;
    }
    assert keys[..i] == keys;
    return Ok(values);
  }

  // ----- literals -----

  /** The PHP literal of what a key evaluates to. */
  ghost function LiteralFor(c: Context, rank: map<string, nat>, bs: seq<Binding>, key: string, bound: nat): Option<string>
    requires AllBelow(c, rank, bs, bound)
  {
    var s := ValueFor(c, rank, bs, key, bound);
    if s.Ok? && RenderScalar(s.value).Ok? then Some(RenderScalar(s.value).value) else None
  }

  ghost predicate AllRender(c: Context, rank: map<string, nat>, bs: seq<Binding>, keys: seq<string>, bound: nat)
    requires AllBelow(c, rank, bs, bound)
  {
    forall k :: k in keys ==> LiteralFor(c, rank, bs, k, bound).Some?
  }

  ghost function LiteralMap(c: Context, rank: map<string, nat>, bs: seq<Binding>, keys: seq<string>, bound: nat): (m: map<string, string>)
    requires AllBelow(c, rank, bs, bound) && AllRender(c, rank, bs, keys, bound)
    ensures forall k :: k in m <==> k in keys
  {
    map k | k in keys :: LiteralFor(c, rank, bs, k, bound).value
  }

  /** The loop that renders the resolved values. */
  method RenderAll(keys: seq<string>, values: map<string, Scalar>) returns (r: Result<map<string, string>, ActionError>)
    requires forall k :: k in keys ==> k in values
    ensures r.Ok? <==> forall k :: k in keys ==> RenderScalar(values[k]).Ok?
    ensures r.Ok? ==> r.value == map k | k in keys :: RenderScalar(values[k]).value
  {
    hide RenderScalar;
    var literals: map<string, string> := map[];
    var i := 0;
    while i < |keys|
      invariant i <= |keys| && forall k :: k in keys[..i] ==> RenderScalar(values[k]).Ok?
      invariant literals == map k | k in keys[..i] :: RenderScalar(values[k]).value
    {
      assert keys[i] in keys;
      var literal := RenderScalar(values[keys[i]]);
      if literal.Err? { return Err(OfPhp(literal.error)); }
      assert keys[..i + 1] == keys[..i] + [keys[i]];
      literals := literals[keys[i] := literal.value];
      i := i + 1;
    }
    assert keys[..i] == keys;
    return Ok(literals);
  }

  // ----- php-array -----

  /** What one update writes, key by key; None when a value has no literal. */
  ghost function UpdateWrites(c: Context, rank: map<string, nat>, u: Update, keys: seq<string>, bound: nat): (ws: Option<seq<P.Write>>)
    requires AllBelow(c, rank, u.values, bound)
    ensures ws.Some? ==> |ws.value| == |keys|
  {
    if keys == [] then Some([])
    else
      var n := |keys| - 1;
      var init, text := UpdateWrites(c, rank, u, keys[..n], bound), LiteralFor(c, rank, u.values, keys[n], bound);
      if init.Some? && text.Some? then Some(init.value + [P.Write(u.path + [keys[n]], text.value)]) else None
  }

  ghost predicate UpdatesBelow(c: Context, rank: map<string, nat>, updates: seq<Update>, bound: nat) {
    forall i :: 0 <= i < |updates| ==> AllBelow(c, rank, updates[i].values, bound)
  }

  /** What all updates write, in order. */
  ghost function AllWrites(c: Context, rank: map<string, nat>, updates: seq<Update>, bound: nat): Option<seq<P.Write>>
    requires UpdatesBelow(c, rank, updates, bound)
  {
    if updates == [] then Some([])
    else
      var n := |updates| - 1;
      var u := updates[n];
      var init, last := AllWrites(c, rank, updates[..n], bound), UpdateWrites(c, rank, u, Ordered(u.values, u.order), bound);
      if init.Some? && last.Some? then Some(init.value + last.value) else None
  }

  ghost function Written(source: string, ws: Option<seq<P.Write>>): Option<string> {
    if ws.Some? && P.PatchAll(source, ws.value).Ok? then Some(P.PatchAll(source, ws.value).value) else None
  }

  lemma WriteNext(src: string, ws: seq<P.Write>, contents: string, w: P.Write)
    requires P.PatchAll(src, ws) == Ok(contents)
    ensures P.PatchAll(src, ws + [w]) == L.PatchArray(contents, w.path, w.value)
  {
    hide L.PatchArray;
    assert (ws + [w])[..|ws|] == ws;
  }

  /** A fold that failed does not recover. */
  lemma {:induction false} StaysFailed(src: string, ws: seq<P.Write>, more: seq<P.Write>)
    requires P.PatchAll(src, ws).Err?
    ensures P.PatchAll(src, ws + more).Err?
    decreases |more|
  {
    hide L.PatchArray;
    if more == [] {
      assert ws + more == ws;
    } else {
      var n := |more| - 1;
      StaysFailed(src, ws, more[..n]);
      assert (ws + more)[..|ws| + n] == ws + more[..n];
    }
  }

  /** A key without a literal, or one that cannot be written, spoils all later keys. */
  lemma {:induction false} UpdateStops(c: Context, rank: map<string, nat>, u: Update, keys: seq<string>, bound: nat, i: nat, source: string, before: seq<P.Write>)
    requires AllBelow(c, rank, u.values, bound) && i <= |keys|
    requires var ws := UpdateWrites(c, rank, u, keys[..i], bound); ws.None? || P.PatchAll(source, before + ws.value).Err?
    ensures var ws := UpdateWrites(c, rank, u, keys, bound); ws.None? || P.PatchAll(source, before + ws.value).Err?
    decreases |keys|
  {
    hide LiteralFor, P.PatchAll, AllBelow;
    if i == |keys| {
      assert keys[..i] == keys;
    } else {
      var n := |keys| - 1;
      assert keys[..n][..i] == keys[..i];
      UpdateStops(c, rank, u, keys[..n], bound, i, source, before);
      var init, ws := UpdateWrites(c, rank, u, keys[..n], bound), UpdateWrites(c, rank, u, keys, bound);
      if ws.Some? {
        StaysFailed(source, before + init.value, ws.value[n..]);
        assert before + ws.value == before + init.value + ws.value[n..];
      }
    }
  }

  lemma {:induction false} WritesStop(c: Context, rank: map<string, nat>, updates: seq<Update>, bound: nat, i: nat, source: string)
    requires UpdatesBelow(c, rank, updates, bound) && i <= |updates|
    requires Written(source, AllWrites(c, rank, updates[..i], bound)).None?
    ensures Written(source, AllWrites(c, rank, updates, bound)).None?
    decreases |updates|
  {
    hide UpdateWrites, P.PatchAll, AllBelow, Ordered;
    if i == |updates| {
      assert updates[..i] == updates;
    } else {
      var n := |updates| - 1;
      assert updates[..n][..i] == updates[..i];
      WritesStop(c, rank, updates[..n], bound, i, source);
      var init, ws := AllWrites(c, rank, updates[..n], bound), AllWrites(c, rank, updates, bound);
      if ws.Some? {
        StaysFailed(source, init.value, UpdateWrites(c, rank, updates[n], Ordered(updates[n].values, updates[n].order), bound).value);
      }
    }
  }

  /** The inner loop: the keys of one update. */
  method WriteUpdate(u: Update, source: string, contents: string, state: ValueState, ghost bound: nat, ghost before: seq<P.Write>) returns (r: Result<string, ActionError>)
    requires state.Valid() && AllBelow(state.context, state.rank, u.values, bound)
    requires P.PatchAll(source, before) == Ok(contents)
    modifies state`memo
    ensures state.Valid()
    ensures
      var ws := UpdateWrites(state.context, state.rank, u, Ordered(u.values, u.order), bound);
      if r.Ok? then ws.Some? && P.PatchAll(source, before + ws.value) == Ok(r.value) else ws.None? || P.PatchAll(source, before + ws.value).Err?
  {
    hide ValueState.Valid, AllBelow, ValueFor, L.PatchArray, P.PatchAll, RenderScalar, Ordered;
    var keys := OrderedKeys(u.values, u.order);
    var out := contents;
    var i := 0;
    assert before + [] == before;
    while i < |keys|
      invariant i <= |keys| && state.Valid()
      invariant
        var ws := UpdateWrites(state.context, state.rank, u, keys[..i], bound);
        ws.Some? && P.PatchAll(source, before + ws.value) == Ok(out)
    {
      ghost var ws := UpdateWrites(state.context, state.rank, u, keys[..i], bound);
      assert keys[..i + 1][..i] == keys[..i] && keys[..i + 1][i] == keys[i];
      var s := Resolve(u.values, keys[i], state, bound);
      if s.Err? {
        UpdateStops(state.context, state.rank, u, keys, bound, i + 1, source, before);
        return Err(s.error);
      }
      var literal := RenderScalar(s.value);
      if literal.Err? {
        UpdateStops(state.context, state.rank, u, keys, bound, i + 1, source, before);
        return Err(OfPhp(literal.error));
      }
      var w := P.Write(u.path + [keys[i]], literal.value);
      var next := M.PatchArrayValue(out, w.path, w.value);
      WriteNext(source, before + ws.value, out, w);
      assert before + ws.value + [w] == before + (ws.value + [w]);
      if next.Err? {
        UpdateStops(state.context, state.rank, u, keys, bound, i + 1, source, before);
        return Err(OfPhp(next.error));
      }
      out := next.value;
      i := i + 1;
    }
    assert keys[..i] == keys;
    r := Ok(out);
  }

  /** The php-array branch: the fold of the patches over all declared paths. */
  method ArrayAction(updates: seq<Update>, source: string, state: ValueState, ghost bound: nat) returns (r: Result<string, ActionError>)
    requires state.Valid() && UpdatesBelow(state.context, state.rank, updates, bound)
    modifies state`memo
    ensures state.Valid()
    ensures Written(source, AllWrites(state.context, state.rank, updates, bound)) == if r.Ok? then Some(r.value) else None
  {
    hide ValueState.Valid, AllBelow, P.PatchAll, UpdateWrites, Ordered;
    var contents := source;
    var i := 0;
    NoWrites(source);
    while i < |updates|
      invariant i <= |updates| && state.Valid()
      invariant Written(source, AllWrites(state.context, state.rank, updates[..i], bound)) == Some(contents)
    {
      assert updates[..i + 1][..i] == updates[..i] && updates[..i + 1][i] == updates[i];
      ghost var before := AllWrites(state.context, state.rank, updates[..i], bound).value;
      var next := WriteUpdate(updates[i], source, contents, state, bound, before);
      if next.Err? {
        WritesStop(state.context, state.rank, updates, bound, i + 1, source);
        return next;
      }
      contents := next.value;
      i := i + 1;
    }
    assert updates[..i] == updates;
    r := Ok(contents);
  }

  lemma NoWrites(source: string)
    ensures P.PatchAll(source, []) == Ok(source)
  {
  }

  // ----- one action on one file -----

  datatype Kind =
    | Dotenv
    | PhpArray(updates: seq<Update>)
    | PhpConstants(insertBefore: string)
    | PhpInclude(file: string, marker: string)
    | WriteFile(literal: bool)

  /** The fallback is another application file, the template one of the plugin's. */
  datatype FileAction = FileAction(path: string, values: seq<Binding>, order: seq<string>, fallback: Option<string>, template: Option<string>, kind: Kind)

  type Files = map<string, string>

  /** readFrameworkActionFile; write-file reads its template alone. */
  function ActionFile(files: Files, a: FileAction): Result<string, ActionError> {
    if a.kind.WriteFile? then if a.template.Some? then Ok(a.template.value) else Err(MissingFile)
    else if a.path in files then Ok(files[a.path])
    else if a.fallback.Some? && a.fallback.value in files then Ok(files[a.fallback.value])
    else if a.template.Some? then Ok(a.template.value)
    else if a.kind.PhpInclude? then Ok("<?php\n")
    else if a.kind.Dotenv? then Ok("")
    else Err(MissingFile)
  }

  /** The assignments of keys. */
  function Assignments(keys: seq<string>, values: map<string, Scalar>): (r: seq<W.Assignment>)
    requires forall k :: k in keys ==> k in values
    ensures |r| == |keys| && forall i :: 0 <= i < |keys| ==> r[i] == W.Assignment(keys[i], ScalarText(values[keys[i]]))
  {
    seq(|keys|, i requires 0 <= i < |keys| => W.Assignment(keys[i], ScalarText(values[keys[i]])))
  }

  ghost predicate ActionBelow(c: Context, rank: map<string, nat>, a: FileAction, bound: nat) {
    AllBelow(c, rank, a.values, bound) && (a.kind.PhpArray? ==> UpdatesBelow(c, rank, a.kind.updates, bound))
  }

  ghost function OfResult(r: Result<string, PhpError>): Option<string> {
    match r case Ok(s) => Some(s) case Err(_) => None
  }

  /** The contents that the action gives the file, or None when it fails. */
  ghost function Edited(c: Context, rank: map<string, nat>, a: FileAction, letter: D.Classifier, bound: nat, src: string): Option<string>
    requires ActionBelow(c, rank, a, bound)
  {
    var keys := Ordered(a.values, a.order);
    if !AllResolve(c, rank, a.values, keys, bound) then None
    else
      match a.kind
      case Dotenv => Some(T.DotenvAction(src, Assignments(keys, Values(c, rank, a.values, keys, bound)), letter))
      case PhpArray(updates) => Written(src, AllWrites(c, rank, updates, bound))
      case PhpConstants(anchor) =>
        if AllRender(c, rank, a.values, keys, bound) then OfResult(C.PatchConstants(src, LiteralMap(c, rank, a.values, keys, bound), keys, anchor)) else None
      case PhpInclude(file, marker) => OfResult(I.PatchInclude(src, file, marker))
      case WriteFile(literal) =>
        if !literal then Some(PL.Substitute(src, Texts(keys, Values(c, rank, a.values, keys, bound))))
        else if AllRender(c, rank, a.values, keys, bound) then Some(PL.Substitute(src, LiteralMap(c, rank, a.values, keys, bound)))
        else None
  }

  /** The texts that write-file inserts. */
  function Texts(keys: seq<string>, values: map<string, Scalar>): map<string, string>
    requires forall k :: k in keys ==> k in values
  {
    map k | k in keys :: ScalarText(values[k])
  }

  /** The loop of the write-file branch, and the substitution. */
  method WriteBranch(keys: seq<string>, values: map<string, Scalar>, contents: string, literal: bool) returns (r: Result<string, ActionError>)
    requires forall k :: k in keys ==> k in values
    ensures r.Ok? <==> (literal ==> forall k :: k in keys ==> RenderScalar(values[k]).Ok?)
    ensures r.Ok? ==> r.value == PL.Substitute(contents, if literal then map k | k in keys :: RenderScalar(values[k]).value else Texts(keys, values))
  {
    hide RenderScalar, PL.Substitute, ScalarText;
    var bindings: map<string, string> := map[];
    var i := 0;
    while i < |keys|
      invariant i <= |keys| && (literal ==> forall k :: k in keys[..i] ==> RenderScalar(values[k]).Ok?)
      invariant bindings == if literal then map k | k in keys[..i] :: RenderScalar(values[k]).value else Texts(keys[..i], values)
    {
      assert keys[i] in keys;
      assert keys[..i + 1] == keys[..i] + [keys[i]];
      if literal {
        var text := RenderScalar(values[keys[i]]);
        if text.Err? { return Err(OfPhp(text.error)); }
        bindings := bindings[keys[i] := text.value];
      } else {
        bindings := bindings[keys[i] := ScalarText(values[keys[i]])];
      }
      i := i + 1;
    }
    assert keys[..i] == keys;
    return Ok(PL.Substitute(contents, bindings));
  }

  /** The dotenv branch. */
  method DotenvBranch(keys: seq<string>, values: map<string, Scalar>, contents: string, letter: D.Classifier) returns (r: string)
    requires forall k :: k in keys ==> k in values
    ensures r == T.DotenvAction(contents, Assignments(keys, values), letter)
  {
    hide W.Upsert;
    var assignments: seq<W.Assignment> := [];
    var i := 0;
    while i < |keys|
      invariant i <= |keys| && |assignments| == i
      invariant forall j :: 0 <= j < i ==> assignments[j] == W.Assignment(keys[j], ScalarText(values[keys[j]]))
    {
      assignments := assignments + [W.Assignment(keys[i], ScalarText(values[keys[i]]))];
      i := i + 1;
    }
    assert assignments == Assignments(keys, values);
    var crlf := Index(contents, "\r\n") >= 0;
    r := W.UpsertAssignments(contents, assignments, letter);
    if crlf { r := W.ToCrlf(r); }
  }

  lemma RenderedMap(c: Context, rank: map<string, nat>, bs: seq<Binding>, keys: seq<string>, bound: nat)
    requires AllBelow(c, rank, bs, bound) && AllResolve(c, rank, bs, keys, bound)
    ensures var values := Values(c, rank, bs, keys, bound);
      && (AllRender(c, rank, bs, keys, bound) <==> forall k :: k in keys ==> RenderScalar(values[k]).Ok?)
      && (AllRender(c, rank, bs, keys, bound) ==> LiteralMap(c, rank, bs, keys, bound) == map k | k in keys :: RenderScalar(values[k]).value)
  {
    hide ValueFor, RenderScalar, AllBelow;
    assert AllRender(c, rank, bs, keys, bound) ==> forall k :: k in keys ==> LiteralFor(c, rank, bs, k, bound).Some?;
  }

  /** runFrameworkAction: one complete write, or none. */
  method RunAction(a: FileAction, files: Files, letter: D.Classifier, state: ValueState, ghost bound: nat) returns (after: Files, failure: Option<ActionError>)
    requires state.Valid() && ActionBelow(state.context, state.rank, a, bound)
    modifies state`memo
    ensures state.Valid()
    ensures
      var src := ActionFile(files, a);
      var out := if src.Ok? then Edited(state.context, state.rank, a, letter, bound, src.value) else None;
      if out.Some? then failure.None? && after == files[a.path := out.value] else failure.Some? && after == files
  {
    hide ValueState.Valid, AllBelow, UpdatesBelow, ValueFor, AllResolve, AllRender, AllWrites, C.PatchConstants, I.PatchInclude, T.DotenvAction, Ordered, RenderScalar, Written, PL.Substitute, ScalarText;
    var keys := OrderedKeys(a.values, a.order);
    var resolved := ResolveAll(a.values, keys, state, bound);
    if resolved.Err? { return files, Some(resolved.error); }
    var src := ActionFile(files, a);
    if src.Err? { return files, Some(src.error); }
    match a.kind
    case Dotenv =>
      var out := DotenvBranch(keys, resolved.value, src.value, letter);
      return files[a.path := out], None;
    case PhpArray(updates) =>
      var out := ArrayAction(updates, src.value, state, bound);
      if out.Err? { return files, Some(out.error); }
      return files[a.path := out.value], None;
    case PhpConstants(anchor) =>
      RenderedMap(state.context, state.rank, a.values, keys, bound);
      var literals := RenderAll(keys, resolved.value);
      if literals.Err? { return files, Some(literals.error); }
      var out := CP.PatchConstantsIn(src.value, literals.value, keys, anchor);
      if out.Err? { return files, Some(OfPhp(out.error)); }
      return files[a.path := out.value], None;
    case PhpInclude(file, marker) =>
      var out := IP.PatchIncludeIn(src.value, file, marker);
      if out.Err? { return files, Some(OfPhp(out.error)); }
      return files[a.path := out.value], None;
    case WriteFile(literal) =>
      RenderedMap(state.context, state.rank, a.values, keys, bound);
      var out := WriteBranch(keys, resolved.value, src.value, literal);
      if out.Err? { return files, Some(out.error); }
      return files[a.path := out.value], None;
  }
}
