/** What a framework action leaves behind, and that a second run of it changes
    nothing. */
module FrameworkRuns {
  import opened Text
  import opened PhpScalars
  import opened ManifestValues
  import opened ManifestEval
  import opened FrameworkActions
  import D = Dotenv
  import W = DotenvWriter
  import DL = DotenvLaws
  import T = DotenvText
  import P = PhpArrayActions
  import L = PhpArrayLens
  import A = PhpArrayLaws
  import EN = PhpArrayPatch
  import DF = PhpDefines
  import C = PhpConstantPatch
  import CT = PhpConstantText
  import R = PhpConstantRuns
  import MM = ManifestMeaning
  import PL = Templates
  import I = PhpInclude
  import IB = PhpIncludeBlock
  import IF = PhpIncludeFresh
  import IR = PhpIncludeRuns
  import IX = PhpIncludeBreaks

  // ----- literals -----

  /** Numbers are in the form in which Go prints them. */
  ghost predicate NumbersPrinted(c: Context, rank: map<string, nat>, bs: seq<Binding>, keys: seq<string>, bound: nat)
    requires AllBelow(c, rank, bs, bound)
  {
    forall k :: k in keys && ValueFor(c, rank, bs, k, bound).Ok? && ValueFor(c, rank, bs, k, bound).value.Number? ==> GoNumber(ValueFor(c, rank, bs, k, bound).value.text)
  }

  lemma LiteralIs(c: Context, rank: map<string, nat>, bs: seq<Binding>, keys: seq<string>, bound: nat, key: string)
    requires AllBelow(c, rank, bs, bound) && NumbersPrinted(c, rank, bs, keys, bound) && key in keys
    requires LiteralFor(c, rank, bs, key, bound).Some?
    ensures IsLiteral(LiteralFor(c, rank, bs, key, bound).value)
  {
    hide ValueFor, AllBelow, GoNumber, RenderScalar, IsLiteral;
    RenderedIsLiteral(ValueFor(c, rank, bs, key, bound).value);
  }

  /** The text is a literal from which PHP reads the scalar. */
  predicate Stores(text: Option<string>, s: Result<Scalar, ActionError>) {
    text.Some? && s.Ok? && ReadScalar(text.value) == Some(s.value)
  }

  lemma LiteralStores(c: Context, rank: map<string, nat>, bs: seq<Binding>, keys: seq<string>, bound: nat, key: string)
    requires AllBelow(c, rank, bs, bound) && NumbersPrinted(c, rank, bs, keys, bound) && key in keys
    requires LiteralFor(c, rank, bs, key, bound).Some?
    ensures Stores(LiteralFor(c, rank, bs, key, bound), ValueFor(c, rank, bs, key, bound))
  {
    hide ValueFor, AllBelow, GoNumber, RenderScalar, ReadScalar;
    RenderedReads(ValueFor(c, rank, bs, key, bound).value);
  }

  lemma LiteralMapIs(c: Context, rank: map<string, nat>, bs: seq<Binding>, keys: seq<string>, bound: nat)
    requires AllBelow(c, rank, bs, bound) && NumbersPrinted(c, rank, bs, keys, bound) && AllRender(c, rank, bs, keys, bound)
    ensures CT.Literals(LiteralMap(c, rank, bs, keys, bound))
  {
    hide ValueFor, AllBelow, NumbersPrinted, IsLiteral, LiteralFor;
    forall k | k in keys
      ensures IsLiteral(LiteralFor(c, rank, bs, k, bound).value)
    {
      assert LiteralFor(c, rank, bs, k, bound).Some?;
      LiteralIs(c, rank, bs, keys, bound, k);
    }
  }

  // ----- php-array -----

  ghost predicate UpdateNumbers(c: Context, rank: map<string, nat>, updates: seq<Update>, bound: nat)
    requires UpdatesBelow(c, rank, updates, bound)
  {
    forall i :: 0 <= i < |updates| ==> NumbersPrinted(c, rank, updates[i].values, Ordered(updates[i].values, updates[i].order), bound)
  }

  lemma {:induction false} WriteAt(c: Context, rank: map<string, nat>, u: Update, keys: seq<string>, bound: nat, j: nat)
    requires AllBelow(c, rank, u.values, bound) && UpdateWrites(c, rank, u, keys, bound).Some? && j < |keys|
    ensures
      var text := LiteralFor(c, rank, u.values, keys[j], bound);
      text.Some? && UpdateWrites(c, rank, u, keys, bound).value[j] == P.Write(u.path + [keys[j]], text.value)
    decreases |keys|
  {
    hide LiteralFor, AllBelow;
    var n := |keys| - 1;
    if j < n { WriteAt(c, rank, u, keys[..n], bound, j); }
  }

  /** The write of a declared key is among the writes of the action. */
  lemma {:induction false} Declared(c: Context, rank: map<string, nat>, updates: seq<Update>, bound: nat, i: nat, j: nat) returns (m: nat)
    requires UpdatesBelow(c, rank, updates, bound) && AllWrites(c, rank, updates, bound).Some? && i < |updates|
    requires j < |Ordered(updates[i].values, updates[i].order)|
    ensures
      var ws, u := AllWrites(c, rank, updates, bound).value, updates[i];
      var key := Ordered(u.values, u.order)[j];
      var text := LiteralFor(c, rank, u.values, key, bound);
      m < |ws| && text.Some? && ws[m] == P.Write(u.path + [key], text.value)
    decreases |updates|
  {
    hide LiteralFor, AllBelow, UpdateWrites, Ordered;
    var n := |updates| - 1;
    if i < n {
      m := Declared(c, rank, updates[..n], bound, i, j);
    } else {
      var u := updates[n];
      var init := AllWrites(c, rank, updates[..n], bound).value;
      WriteAt(c, rank, u, Ordered(u.values, u.order), bound, j);
      m := |init| + j;
    }
  }

  lemma {:induction false} UpdateLiteral(c: Context, rank: map<string, nat>, u: Update, keys: seq<string>, bound: nat)
    requires AllBelow(c, rank, u.values, bound) && UpdateWrites(c, rank, u, keys, bound).Some? && NumbersPrinted(c, rank, u.values, keys, bound)
    ensures P.AllLiteral(UpdateWrites(c, rank, u, keys, bound).value)
  {
    hide LiteralFor, AllBelow, NumbersPrinted, UpdateWrites, IsLiteral;
    forall j | 0 <= j < |keys|
      ensures IsLiteral(UpdateWrites(c, rank, u, keys, bound).value[j].value)
    {
      WriteAt(c, rank, u, keys, bound, j);
      LiteralIs(c, rank, u.values, keys, bound, keys[j]);
    }
  }

  lemma {:induction false} WritesLiteral(c: Context, rank: map<string, nat>, updates: seq<Update>, bound: nat)
    requires UpdatesBelow(c, rank, updates, bound) && AllWrites(c, rank, updates, bound).Some? && UpdateNumbers(c, rank, updates, bound)
    ensures P.AllLiteral(AllWrites(c, rank, updates, bound).value)
    decreases |updates|
  {
    hide LiteralFor, AllBelow, NumbersPrinted, UpdateWrites, IsLiteral, Ordered;
    if updates != [] {
      var n := |updates| - 1;
      assert forall i :: 0 <= i < n ==> updates[..n][i] == updates[i];
      WritesLiteral(c, rank, updates[..n], bound);
      UpdateLiteral(c, rank, updates[n], Ordered(updates[n].values, updates[n].order), bound);
    }
  }

  /** The paths do not meet, and no value to be replaced hides in a comment. */
  predicate Separate(src: string, ws: seq<P.Write>) {
    P.PrefixFree(ws) && P.AllPlaceable(src, ws)
  }

  /** After the action every declared key holds a literal that reads as what its own
      expression evaluates to, and what no declared path leads to or through is what
      it was. */
  lemma ArrayDeclared(c: Context, rank: map<string, nat>, updates: seq<Update>, bound: nat, src: string, out: string, i: nat, j: nat, q: seq<string>)
    requires UpdatesBelow(c, rank, updates, bound) && UpdateNumbers(c, rank, updates, bound)
    requires Written(src, AllWrites(c, rank, updates, bound)) == Some(out) && Separate(src, AllWrites(c, rank, updates, bound).value)
    ensures i < |updates| && j < |Ordered(updates[i].values, updates[i].order)| ==>
      var key := Ordered(updates[i].values, updates[i].order)[j];
      && A.ReadText(out, updates[i].path + [key]) == LiteralFor(c, rank, updates[i].values, key, bound)
      && Stores(A.ReadText(out, updates[i].path + [key]), ValueFor(c, rank, updates[i].values, key, bound))
    ensures P.Apart(q, AllWrites(c, rank, updates, bound).value) ==> L.Read(out, q) == L.Read(src, q)
  {
    hide LiteralFor, AllBelow, NumbersPrinted, UpdateWrites, IsLiteral, Ordered, A.ReadText, L.Read, P.PatchAll, AllWrites, P.PrefixFree, P.AllPlaceable, P.Apart, P.AllLiteral, ValueFor, ReadScalar;
    var ws := AllWrites(c, rank, updates, bound).value;
    WritesLiteral(c, rank, updates, bound);
    if i < |updates| && j < |Ordered(updates[i].values, updates[i].order)| {
      var m := Declared(c, rank, updates, bound, i, j);
      var keys := Ordered(updates[i].values, updates[i].order);
      LiteralStores(c, rank, updates[i].values, keys, bound, keys[j]);
      P.ActionReads(src, ws, m);
    }
    if P.Apart(q, ws) { P.ActionFrame(src, ws, q); }
  }

  // ----- php-constants -----

  /** Every key has exactly one call, with a literal that reads as what its expression
      evaluates to. */
  ghost predicate StoresAll(c: Context, rank: map<string, nat>, bs: seq<Binding>, bound: nat, es: seq<DF.Entry>)
    requires AllBelow(c, rank, bs, bound)
  {
    && (forall k :: k in Keys(bs) ==> R.Count(es, k) == 1)
    && (forall i :: 0 <= i < |es| && es[i].key in Keys(bs) ==> es[i].value != [] && Stores(Some(L.ValueText(es[i].value)), ValueFor(c, rank, bs, es[i].key, bound)))
  }

  /** After the action every managed constant has one call, with a literal that reads
      as what its own expression evaluates to; all other calls are what they were. */
  lemma ConstantsDeclared(c: Context, rank: map<string, nat>, bs: seq<Binding>, order: seq<string>, bound: nat, src: string, anchor: string)
    requires ValidOrder(bs, order)
    requires AllBelow(c, rank, bs, bound) && AllRender(c, rank, bs, Ordered(bs, order), bound) && NumbersPrinted(c, rank, bs, Ordered(bs, order), bound)
    requires R.Constants(src).Ok? && R.Writable(src, LiteralMap(c, rank, bs, Ordered(bs, order), bound), Ordered(bs, order), anchor)
    requires forall k :: k in Keys(bs) ==> R.Count(R.Constants(src).value, k) <= 1
    ensures
      var values := LiteralMap(c, rank, bs, Ordered(bs, order), bound);
      var out := C.PatchConstants(src, values, Ordered(bs, order), anchor);
      && values.Keys == (set k | k in Keys(bs)) && out.Ok? && R.Constants(out.value).Ok?
      && R.HoldsValues(R.Constants(out.value).value, values) && StoresAll(c, rank, bs, bound, R.Constants(out.value).value)
      && R.Unmanaged(R.Constants(out.value).value, values) == R.Unmanaged(R.Constants(src).value, values)
  {
    hide AllBelow, NumbersPrinted, AllRender, Ordered, R.Constants, R.Writable, R.HoldsValues, R.Unmanaged, C.PatchConstants, LiteralFor, StoresAll, ValueFor;
    var keys := Ordered(bs, order);
    OrderedIsAll(bs, order);
    LiteralMapIs(c, rank, bs, keys, bound);
    var values := LiteralMap(c, rank, bs, keys, bound);
    R.ConstantsWritten(src, values, keys, anchor);
    HeldStored(c, rank, bs, keys, bound, R.Constants(C.PatchConstants(src, values, keys, anchor).value).value);
  }

  lemma HeldStored(c: Context, rank: map<string, nat>, bs: seq<Binding>, keys: seq<string>, bound: nat, es: seq<DF.Entry>)
    requires AllBelow(c, rank, bs, bound) && AllRender(c, rank, bs, keys, bound) && NumbersPrinted(c, rank, bs, keys, bound)
    requires (forall k :: k in Keys(bs) <==> k in keys) && R.HoldsValues(es, LiteralMap(c, rank, bs, keys, bound))
    ensures StoresAll(c, rank, bs, bound, es)
  {
    hide AllBelow, NumbersPrinted, LiteralFor, ValueFor, Stores, L.ValueText;
    var values := LiteralMap(c, rank, bs, keys, bound);
    forall i | 0 <= i < |es| && es[i].key in Keys(bs)
      ensures es[i].value != [] && Stores(Some(L.ValueText(es[i].value)), ValueFor(c, rank, bs, es[i].key, bound))
    {
      var k := es[i].key;
      assert k in values && LiteralFor(c, rank, bs, k, bound).Some?;
      LiteralStores(c, rank, bs, keys, bound, k);
      assert Some(L.ValueText(es[i].value)) == LiteralFor(c, rank, bs, k, bound);
    }
  }

  // ----- write-file and dotenv -----

  /** The text shows the scalar: nothing for null. */
  predicate ShowsText(text: string, s: Result<Scalar, ActionError>) {
    s.Ok? && MM.Shows(Ok(s.value), Ok(text))
  }

  /** However the template is cut into plain text and placeholders, the file holds the
      plain text and, for every placeholder with a declared name, what its expression
      evaluates to: as a literal that reads so, or as a text. */
  lemma FileDeclared(c: Context, rank: map<string, nat>, a: FileAction, letter: D.Classifier, bound: nat, cs: seq<PL.Chunk>) returns (bindings: map<string, string>)
    requires ActionBelow(c, rank, a, bound) && a.kind.WriteFile? && PL.Cut(cs)
    requires Edited(c, rank, a, letter, bound, PL.Unchunked(cs)).Some?
    ensures Edited(c, rank, a, letter, bound, PL.Unchunked(cs)).value == PL.Filled(cs, bindings)
    ensures bindings.Keys == (set k | k in Ordered(a.values, a.order))
    ensures !a.kind.literal ==> forall k :: k in bindings ==> ShowsText(bindings[k], ValueFor(c, rank, a.values, k, bound))
    ensures a.kind.literal && NumbersPrinted(c, rank, a.values, Ordered(a.values, a.order), bound) ==>
      forall k :: k in bindings ==> Stores(Some(bindings[k]), ValueFor(c, rank, a.values, k, bound))
  {
    hide AllBelow, UpdatesBelow, NumbersPrinted, Ordered, LiteralFor, ValueFor, PL.Cut, PL.Unchunked, PL.Filled, PL.Substitute, ReadScalar;
    var keys := Ordered(a.values, a.order);
    var values := Values(c, rank, a.values, keys, bound);
    bindings := if a.kind.literal then LiteralMap(c, rank, a.values, keys, bound) else Texts(keys, values);
    PL.SubstituteFills(cs, bindings);
    if a.kind.literal && NumbersPrinted(c, rank, a.values, keys, bound) {
      forall k | k in keys
        ensures Stores(Some(bindings[k]), ValueFor(c, rank, a.values, k, bound))
      {
        assert LiteralFor(c, rank, a.values, k, bound).Some?;
        LiteralStores(c, rank, a.values, keys, bound, k);
      }
    }
  }

  /** If line j of those that a dotenv action writes assigns a declared name, it assigns
      what the name's expression evaluates to, which is read back unless there is a
      dollar sign in it. */
  lemma DotenvDeclared(c: Context, rank: map<string, nat>, a: FileAction, letter: D.Classifier, bound: nat, src: string, i: nat, j: nat) returns (text: string)
    requires ActionBelow(c, rank, a, bound) && a.kind.Dotenv? && D.Classifies(letter)
    requires AllResolve(c, rank, a.values, Ordered(a.values, a.order), bound)
    requires var keys := Ordered(a.values, a.order);
      && DL.ValidAssignments(Assignments(keys, Values(c, rank, a.values, keys, bound))) && i < |keys|
      && j < |W.UpsertLines(W.LinesOf(src), Assignments(keys, Values(c, rank, a.values, keys, bound)), letter)|
    ensures var keys := Ordered(a.values, a.order);
      var line := W.UpsertLines(W.LinesOf(src), Assignments(keys, Values(c, rank, a.values, keys, bound)), letter)[j];
      && ShowsText(text, ValueFor(c, rank, a.values, keys[i], bound))
      && (W.ActiveLine(line, keys[i]) ==> exists t :: line == keys[i] + "=" + t && (D.ParseValue(t) == Ok(text) <==> '$' !in text))
  {
    hide AllBelow, UpdatesBelow, Ordered, ValueFor, W.UpsertLines, W.LinesOf, W.ActiveLine, D.ParseValue, D.RenderValue, DL.ValidAssignments;
    var keys := Ordered(a.values, a.order);
    var values := Values(c, rank, a.values, keys, bound);
    text := ScalarText(values[keys[i]]);
    var as' := Assignments(keys, values);
    if W.ActiveLine(W.UpsertLines(W.LinesOf(src), as', letter)[j], keys[i]) {
      DL.UpsertCarries(W.LinesOf(src), as', letter, i, j);
      D.RenderParse(text, letter);
    }
  }

  // ----- a second run -----

  /** The values that are declared can be written, and the file has a place for them. */
  ghost predicate Writable(c: Context, rank: map<string, nat>, a: FileAction, letter: D.Classifier, bound: nat, src: string)
    requires ActionBelow(c, rank, a, bound)
  {
    var keys := Ordered(a.values, a.order);
    match a.kind
    case Dotenv =>
      D.Classifies(letter) && (AllResolve(c, rank, a.values, keys, bound) ==> DL.ValidAssignments(Assignments(keys, Values(c, rank, a.values, keys, bound))))
    case PhpArray(updates) =>
      var ws := AllWrites(c, rank, updates, bound);
      UpdateNumbers(c, rank, updates, bound) && (ws.Some? ==> Separate(src, ws.value))
    case PhpConstants(anchor) =>
      ValidOrder(a.values, a.order) && NumbersPrinted(c, rank, a.values, keys, bound) &&
      (AllRender(c, rank, a.values, keys, bound) ==> R.Constants(src).Ok? ==> R.Writable(src, LiteralMap(c, rank, a.values, keys, bound), keys, anchor))
    case PhpInclude(file, marker) =>
      IB.ValidMarker(marker) && IR.Ready(src, marker)
    case WriteFile(_) => true
  }

  /** The line breaks of the file do not keep the second run from being the identity. */
  ghost predicate Breaks(c: Context, rank: map<string, nat>, a: FileAction, letter: D.Classifier, bound: nat, src: string)
    requires ActionBelow(c, rank, a, bound)
  {
    var keys := Ordered(a.values, a.order);
    match a.kind
    case Dotenv =>
      AllResolve(c, rank, a.values, keys, bound) ==>
        T.Steady(src, Assignments(keys, Values(c, rank, a.values, keys, bound)), letter)
    case PhpArray(_) => true
    case PhpConstants(_) => true
    case PhpInclude(file, marker) =>
      IR.Ready(src, marker) ==> EN.EOL(src) == "\r\n" || !IX.GainsCrlf(src, file, marker)
    case WriteFile(_) => true
  }

  /** Running an action that patches a file again on what it produced gives the same
      file, exactly when the line breaks of the file allow it. */
  lemma EditedTwice(c: Context, rank: map<string, nat>, a: FileAction, letter: D.Classifier, bound: nat, src: string)
    requires ActionBelow(c, rank, a, bound) && Writable(c, rank, a, letter, bound, src) && !a.kind.WriteFile?
    requires Edited(c, rank, a, letter, bound, src).Some?
    ensures var out := Edited(c, rank, a, letter, bound, src).value;
      Edited(c, rank, a, letter, bound, out) == Some(out) <==> Breaks(c, rank, a, letter, bound, src)
  {
    hide T.Steady, AllBelow, UpdatesBelow, NumbersPrinted, AllRender, AllResolve, Ordered, R.Constants, R.Writable, R.HoldsValues, C.PatchConstants, LiteralFor, P.PatchAll, P.PrefixFree, P.AllPlaceable, P.AllLiteral,
      AllWrites, UpdateNumbers, T.DotenvAction, I.PatchInclude, IR.Ready, IB.ValidMarker, EN.EOL, IX.GainsCrlf, LiteralMap, ValueFor, ValidOrder, DL.ValidAssignments;
    var keys := Ordered(a.values, a.order);
    match a.kind
    case Dotenv =>
      T.DotenvActionIdempotent(src, Assignments(keys, Values(c, rank, a.values, keys, bound)), letter);
    case PhpArray(updates) =>
      WritesLiteral(c, rank, updates, bound);
      P.ActionIdempotent(src, AllWrites(c, rank, updates, bound).value);
    case PhpConstants(anchor) =>
      ConstantsTwice(c, rank, a.values, a.order, bound, src, anchor);
    case PhpInclude(file, marker) =>
      IX.IncludeIdempotent(src, file, marker);
  }

  lemma ConstantsTwice(c: Context, rank: map<string, nat>, bs: seq<Binding>, order: seq<string>, bound: nat, src: string, anchor: string)
    requires ValidOrder(bs, order)
    requires AllBelow(c, rank, bs, bound) && AllRender(c, rank, bs, Ordered(bs, order), bound) && NumbersPrinted(c, rank, bs, Ordered(bs, order), bound)
    requires R.Constants(src).Ok? ==> R.Writable(src, LiteralMap(c, rank, bs, Ordered(bs, order), bound), Ordered(bs, order), anchor)
    requires C.PatchConstants(src, LiteralMap(c, rank, bs, Ordered(bs, order), bound), Ordered(bs, order), anchor).Ok?
    ensures
      var values := LiteralMap(c, rank, bs, Ordered(bs, order), bound);
      var out := C.PatchConstants(src, values, Ordered(bs, order), anchor).value;
      C.PatchConstants(out, values, Ordered(bs, order), anchor) == Ok(out)
  {
    hide AllBelow, NumbersPrinted, AllRender, Ordered, R.Writable, LiteralFor;
    OrderedIsAll(bs, order);
    LiteralMapIs(c, rank, bs, Ordered(bs, order), bound);
    R.ConstantsIdempotent(src, LiteralMap(c, rank, bs, Ordered(bs, order), bound), Ordered(bs, order), anchor);
  }

  /** The same for the file on disk: a second run of an action that succeeded leaves
      every file as it is, exactly then; write-file, which reads its template alone,
      always does. */
  lemma ActionTwice(c: Context, rank: map<string, nat>, a: FileAction, letter: D.Classifier, bound: nat, files: Files)
    requires ActionBelow(c, rank, a, bound) && ActionFile(files, a).Ok?
    requires Writable(c, rank, a, letter, bound, ActionFile(files, a).value)
    requires Edited(c, rank, a, letter, bound, ActionFile(files, a).value).Some?
    ensures
      var after := files[a.path := Edited(c, rank, a, letter, bound, ActionFile(files, a).value).value];
      var again := ActionFile(after, a);
      && again.Ok?
      && var out := Edited(c, rank, a, letter, bound, again.value);
        (out.Some? && after[a.path := out.value] == after) <==> Breaks(c, rank, a, letter, bound, ActionFile(files, a).value)
  {
    hide Edited, Writable, ActionBelow;
    if !a.kind.WriteFile? { hide Breaks; EditedTwice(c, rank, a, letter, bound, ActionFile(files, a).value); }
  }

  // ----- the text that is edited -----

  /** The file itself is edited if it is there, then its fallback, then the template. */
  lemma FileRead(files: Files, a: FileAction, text: string)
    requires !a.kind.WriteFile?
    ensures a.path in files && files[a.path] == text ==> ActionFile(files, a) == Ok(text)
    ensures a.path !in files && a.fallback.Some? && a.fallback.value in files && files[a.fallback.value] == text ==> ActionFile(files, a) == Ok(text)
    ensures a.path !in files && (a.fallback.Some? ==> a.fallback.value !in files) && a.template == Some(text) ==> ActionFile(files, a) == Ok(text)
  {
  }

  /** Without any of these php-include writes a file with nothing but the block, dotenv
      starts from an empty file, and the others are refused. */
  lemma FreshFile(c: Context, rank: map<string, nat>, files: Files, a: FileAction, letter: D.Classifier, bound: nat)
    requires ActionBelow(c, rank, a, bound) && AllResolve(c, rank, a.values, Ordered(a.values, a.order), bound)
    requires a.path !in files && (a.fallback.Some? ==> a.fallback.value !in files) && a.template.None?
    ensures a.kind.PhpInclude? ==>
      && ActionFile(files, a).Ok?
      && Edited(c, rank, a, letter, bound, ActionFile(files, a).value) == Some("<?php\n" + IF.BlockLines(a.kind.file, a.kind.marker))
    ensures a.kind.Dotenv? ==> ActionFile(files, a) == Ok("")
    ensures !a.kind.PhpInclude? && !a.kind.Dotenv? ==> ActionFile(files, a).Err?
  {
    hide AllResolve, I.PatchInclude, IF.BlockLines, Ordered;
    if a.kind.PhpInclude? { IF.FreshInclude(a.kind.file, a.kind.marker); }
  }
}
