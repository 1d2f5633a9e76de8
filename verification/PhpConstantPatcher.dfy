/** patchPHPConstants as one loop over the tokens. */
module PhpConstantPatcher {
  import opened Text
  import opened PhpLexer
  import opened PhpTokens
  import opened PhpLiterals
  import opened PhpSplice
  import opened PhpArrayPatch
  import opened PhpDefines
  import opened PhpConstants
  import opened PhpConstantText
  import opened PhpConstantPatch
  import opened PhpScanner
  import opened PhpArrayReader
  import opened PhpArrayPatcher
  import E = PhpEdits

  // ----- one call -----

  /** Whether token i starts a call of the global function define. */
  method StartsDefine(tokens: seq<Token>, i: nat, ghost ls: seq<Lexeme>) returns (b: bool)
    requires Same(tokens, ls) && i < |tokens|
    ensures b == IsDefine(ls, i)
  {
    hide FoldsTo;
    if !FoldsTo(tokens[i].text, "define") || i + 1 >= |tokens| || tokens[i + 1].text != "(" { return false; }
    if i > 0 && (tokens[i - 1].text == "$" || tokens[i - 1].text == "->" || tokens[i - 1].text == "::" || tokens[i - 1].text == "function") { return false; }
    if i > 1 && tokens[i - 1].text == "\\" && tokens[i - 2].kind == Identifier { return false; }
    return true;
  }

  /** The arguments of the call at token i. */
  method DefineCall(tokens: seq<Token>, i: nat, ghost ls: seq<Lexeme>) returns (r: Result<Define, PhpError>)
    requires Same(tokens, ls) && Quotes(tokens) && i < |tokens| && IsDefine(ls, i)
    ensures r == DefineAt(ls, i)
  {
    hide MatchLength, Split, LiteralKey, FoldsTo, Segmented, Ranges, Same, Quotes, IsDefine, DefineAt;
    SameAt(tokens, ls);
    DefineSteps(ls, i);
    var close := Matching(tokens, i + 1, ls);
    if close.Err? { return Err(close.error); }
    MatchGroup(ls[i + 1..]);
    ghost var inner := ls[i + 2..close.value];
    var args := Segments(tokens, i + 2, close.value, ls);
    SegmentedOk(Split(inner), i + 2);
    if args.Ok? {
      SegmentsStand(ls, i + 2, close.value, Split(inner).value, args.value);
      ArgRanges(inner, i + 2);
    }
    if args.Err? || |args.value| < 2 || |args.value| > 3 || args.value[0].1 != args.value[0].0 + 1 { return Err(DefineArguments); }
    var key := ReadKey(tokens[args.value[0].0]);
    KeyToken(ls, i + 2, Split(inner).value);
    if key.Err? { return Err(key.error); }
    return Ok(Define(i, key.value, args.value[1].0, args.value[1].1, close.value + 1));
  }

  /** The steps of reading the call at token i. */
  lemma DefineSteps(ls: seq<Lexeme>, i: nat)
    requires i < |ls| && IsDefine(ls, i)
    ensures i + 1 < |ls| && ls[i + 1].Txt() == "("
    ensures DefineAt(ls, i) ==
      match MatchLength(ls[i + 1..], [])
      case Err(e) => Err(e)
      case Ok(n) =>
        if n < 2 then Err(DefineArguments) else
        match Split(ls[i + 2..i + n])
        case Err(_) => Err(DefineArguments)
        case Ok(args) =>
          if |args| < 2 || |args| > 3 || |args[0].arg| != 1 then Err(DefineArguments)
          else
            match LiteralKey(args[0].arg[0].token)
            case Err(e) => Err(e)
            case Ok(key) => Ok(Define(i, key, i + 4, i + 4 + |args[1].arg|, i + n + 1))
  {
    hide MatchLength, Split, LiteralKey, FoldsTo;
    var xs := ls[i..];
    assert xs[1..] == ls[i + 1..] && xs[1] == ls[i + 1];
    var m := MatchLength(ls[i + 1..], []);
    if m.Ok? && m.value >= 2 { assert xs[2..m.value] == ls[i + 2..i + m.value]; }
  }

  lemma SameAt(tokens: seq<Token>, ls: seq<Lexeme>)
    requires Same(tokens, ls) && Quotes(tokens)
    ensures |tokens| == |ls|
    ensures forall j :: 0 <= j < |tokens| ==> ls[j].token == Piece(tokens[j].kind, tokens[j].text) && (tokens[j].kind == Quoted ==> |tokens[j].text| >= 2)
  {
  }

  /** Where the first two arguments stand. */
  lemma ArgRanges(xs: seq<Lexeme>, at: nat)
    requires Split(xs).Ok?
    ensures var parts := Split(xs).value;
      |parts| >= 2 ==>
        var r := Ranges(parts, at);
        && r[0] == (at, at + |parts[0].arg|) && |parts[0].comma| == 1
        && r[1] == (at + |parts[0].arg| + 1, at + |parts[0].arg| + 1 + |parts[1].arg|)
  {
  }

  lemma KeyToken(ls: seq<Lexeme>, at: nat, parts: seq<Part>)
    requires parts != [] && |parts[0].arg| == 1 && at < |ls| && ls[at..at + 1] == parts[0].arg
    ensures parts[0].arg[0] == ls[at]
  {
  }

  // ----- the state of the loop -----

  /** The calls found so far, ahead of the rest of the walk. */
  function Resumed(ds: seq<Define>, r: Result<seq<Define>, PhpError>): Result<seq<Define>, PhpError> {
    match r case Err(e) => Err(e) case Ok(rest) => Ok(ds + rest)
  }

  ghost predicate Walked(ls: seq<Lexeme>, ds: seq<Define>, i: nat, values: map<string, string>, written: set<string>, edits: seq<E.Edit>) {
    && i <= |ls| && Walk(ls, 0) == Resumed(ds, Walk(ls, i))
    && AllWithin(ls, ds) && edits == Edits(ls, ds, values, |ds|)
    && !Duplicated(ds, values) && written == Keys(ds) * values.Keys
  }

  lemma WalkSkips(ls: seq<Lexeme>, ds: seq<Define>, i: nat, values: map<string, string>, written: set<string>, edits: seq<E.Edit>)
    requires Walked(ls, ds, i, values, written, edits) && i < |ls| && !IsDefine(ls, i)
    ensures Walked(ls, ds, i + 1, values, written, edits)
  {
  }

  lemma WalkBreaks(ls: seq<Lexeme>, ds: seq<Define>, i: nat, values: map<string, string>, written: set<string>, edits: seq<E.Edit>)
    requires Walked(ls, ds, i, values, written, edits) && i < |ls| && IsDefine(ls, i) && DefineAt(ls, i).Err?
    ensures Walk(ls, 0).Err?
  {
  }

  /** The walk takes a call. */
  lemma WalkTakes(ls: seq<Lexeme>, ds: seq<Define>, i: nat, values: map<string, string>, written: set<string>, edits: seq<E.Edit>, d: Define)
    requires Walked(ls, ds, i, values, written, edits) && i < |ls| && IsDefine(ls, i) && DefineAt(ls, i) == Ok(d)
    ensures Within(ls, d)
    ensures if d.key in values && d.key in written then Walk(ls, 0).Ok? ==> Duplicated(Walk(ls, 0).value, values)
      else
        Walked(ls, ds + [d], d.next, values, if d.key in values then written + {d.key} else written,
          if d.key in values then edits + [ValueEdit(ls, d, values[d.key])] else edits)
  {
    hide IsDefine, CallAt, Start, End, Edits, Duplicated, Keys, ValueEdit;
    var rest := Walk(ls, d.next);
    assert Walk(ls, 0) == Resumed(ds + [d], rest) by {
      if rest.Ok? { assert ds + ([d] + rest.value) == ds + [d] + rest.value; }
    }
    if d.key in values && d.key in written {
      if rest.Ok? { DuplicatedHere(ds, d, rest.value, values); }
    } else {
      TakenKeys(ds, d, values);
      TakenEdits(ls, ds, d, values);
    }
  }

  lemma DuplicatedHere(ds: seq<Define>, d: Define, rest: seq<Define>, values: map<string, string>)
    requires d.key in values && d.key in Keys(ds)
    ensures Duplicated(ds + [d] + rest, values)
  {
    var i :| 0 <= i < |ds| && ds[i].key == d.key;
    var all := ds + [d] + rest;
    assert all[i].key == all[|ds|].key && all[i].key in values;
  }

  lemma TakenKeys(ds: seq<Define>, d: Define, values: map<string, string>)
    requires !Duplicated(ds, values) && !(d.key in values && d.key in Keys(ds))
    ensures !Duplicated(ds + [d], values) && Keys(ds + [d]) == Keys(ds) + {d.key}
  {
    var all := ds + [d];
    assert forall i :: 0 <= i < |ds| ==> all[i] == ds[i] && ds[i].key in Keys(ds);
    forall k
      ensures k in Keys(all) <==> k in Keys(ds) + {d.key}
    {
      if k in Keys(all) {
        var i :| 0 <= i < |all| && all[i].key == k;
      }
      if k in Keys(ds) {
        var i :| 0 <= i < |ds| && ds[i].key == k;
        assert all[i].key == k;
      }
      assert all[|ds|].key == d.key;
    }
    forall i, j | 0 <= i < j < |all| && all[i].key == all[j].key
      ensures all[i].key !in values
    {
      assert ds[i].key in Keys(ds);
      assert j < |ds| ==> !(ds[i].key == ds[j].key && ds[i].key in values);
    }
  }

  lemma {:induction false} EditsPrefix(ls: seq<Lexeme>, ds: seq<Define>, all: seq<Define>, values: map<string, string>, k: nat)
    requires AllWithin(ls, ds) && AllWithin(ls, all) && k <= |ds| && ds <= all
    ensures Edits(ls, all, values, k) == Edits(ls, ds, values, k)
  {
    hide Start, End;
    if k > 0 { EditsPrefix(ls, ds, all, values, k - 1); }
  }

  lemma TakenEdits(ls: seq<Lexeme>, ds: seq<Define>, d: Define, values: map<string, string>)
    requires AllWithin(ls, ds) && Within(ls, d)
    ensures AllWithin(ls, ds + [d])
    ensures Edits(ls, ds + [d], values, |ds| + 1) ==
      if d.key in values then Edits(ls, ds, values, |ds|) + [ValueEdit(ls, d, values[d.key])] else Edits(ls, ds, values, |ds|)
  {
    hide Start, End;
    EditsPrefix(ls, ds, ds + [d], values, |ds|);
    var e := Edits(ls, ds, values, |ds|);
    assert e + [] == e;
  }

  // ----- the insertion point -----

  /** What has been found of the insertion point before token i, at brace depth n. */
  ghost predicate Sought(src: string, ls: seq<Lexeme>, i: nat, n: int, anchor: string, insertAt: int, fallback: int) {
    && i <= |ls|
    && (if insertAt < 0 then Anchor(ls, 0, 0, anchor) == Anchor(ls, i, n, anchor)
        else exists a: nat :: a < i && Anchor(ls, 0, 0, anchor) == Some(a) && insertAt == Start(ls, a))
    && (if fallback == |src| then Fallback(ls, 0, 0) == Fallback(ls, i, n)
        else exists a: nat :: a < i && Fallback(ls, 0, 0) == Some(a) && fallback == Start(ls, a))
  }

  lemma SoughtStarts(src: string, ls: seq<Lexeme>, anchor: string)
    ensures Sought(src, ls, 0, 0, anchor, -1, |src|)
  {
  }

  /** The fallback after token i. */
  function FallbackAfter(ls: seq<Lexeme>, i: nat, n: int, fallback: int): int
    requires i < |ls|
  {
    if n == 0 && (ls[i].token.kind == Close || IncludeWord(ls[i].Txt())) && Start(ls, i) < fallback then Start(ls, i) else fallback
  }

  /** One step over a token that starts no call. */
  lemma SoughtSkips(src: string, d: Doc, i: nat, n: int, anchor: string, insertAt: int, fallback: int)
    requires Parse(src) == Ok(d) && Sought(src, d.lexemes, i, n, anchor, insertAt, fallback) && i < |d.lexemes| && !IsDefine(d.lexemes, i)
    ensures var n' := n + BraceStep(d.lexemes[i].Txt());
      Sought(src, d.lexemes, i + 1, n', anchor, insertAt, FallbackAfter(d.lexemes, i, n', fallback))
  {
    hide IsDefine, CallAt, IncludeWord, Start, End, Parse, BraceStep;
    FallbackStep(src, d, i, n, fallback, anchor, insertAt);
  }

  lemma FallbackStep(src: string, d: Doc, i: nat, n: int, fallback: int, anchor: string, insertAt: int)
    requires Parse(src) == Ok(d) && Sought(src, d.lexemes, i, n, anchor, insertAt, fallback) && i < |d.lexemes|
    ensures var n' := n + BraceStep(d.lexemes[i].Txt());
      var f := FallbackAfter(d.lexemes, i, n', fallback);
      if f == |src| then
        fallback == |src| && !(n' == 0 && (d.lexemes[i].token.kind == Close || IncludeWord(d.lexemes[i].Txt())))
      else exists a: nat :: a <= i && Fallback(d.lexemes, 0, 0) == Some(a) && f == Start(d.lexemes, a)
  {
    hide IsDefine, CallAt, IncludeWord, Start, End, Parse, BraceStep, Anchor;
    var ls := d.lexemes;
    var n' := n + BraceStep(ls[i].Txt());
    StartsWithin(src, d);
    if fallback == |src| {
      if n' == 0 && (ls[i].token.kind == Close || IncludeWord(ls[i].Txt())) { assert Fallback(ls, 0, 0) == Some(i); }
    } else {
      var a: nat :| a < i && Fallback(ls, 0, 0) == Some(a) && fallback == Start(ls, a);
      StartMonotone(src, d, a, i);
    }
  }

  /** One step over a call. */
  lemma SoughtTakes(src: string, d: Doc, i: nat, n: int, anchor: string, insertAt: int, fallback: int, c: Define)
    requires Parse(src) == Ok(d) && Sought(src, d.lexemes, i, n, anchor, insertAt, fallback) && i < |d.lexemes|
    requires IsDefine(d.lexemes, i) && DefineAt(d.lexemes, i) == Ok(c)
    ensures c.next <= |d.lexemes|
    ensures Sought(src, d.lexemes, c.next, n, anchor,
      if c.key == anchor && insertAt < 0 && n == 0 then Start(d.lexemes, i) else insertAt, fallback)
  {
    hide CallAt, IncludeWord, Start, End, Parse, IsDefine;
    DefineNoBrace(d.lexemes, i);
    DefineNoStop(src, d, i);
    AnchorTakes(d.lexemes, i, n, anchor, c);
    FallbackTakes(d.lexemes, i, n, c);
  }

  lemma DefineNoStop(src: string, d: Doc, i: nat)
    requires Parse(src) == Ok(d) && i < |d.lexemes| && IsDefine(d.lexemes, i)
    ensures d.lexemes[i].token.kind != Close && !IncludeWord(d.lexemes[i].Txt())
  {
    hide Parse, Pieces, ModeAfter;
    ModeAt(src, d, i);
    var t := d.lexemes[i].Txt();
    assert |t| == 6 && |Lower(t)| == 6;
    assert |"require"| == 7 && |"include"| == 7 && |"require_once"| == 12 && |"include_once"| == 12;
  }

  lemma AnchorTakes(ls: seq<Lexeme>, i: nat, n: int, anchor: string, c: Define)
    requires i < |ls| && IsDefine(ls, i) && DefineAt(ls, i) == Ok(c) && BraceStep(ls[i].Txt()) == 0
    ensures Anchor(ls, i, n, anchor) == if c.key == anchor && n == 0 then Some(i) else Anchor(ls, c.next, n, anchor)
  {
  }

  lemma FallbackTakes(ls: seq<Lexeme>, i: nat, n: int, c: Define)
    requires i < |ls| && IsDefine(ls, i) && DefineAt(ls, i) == Ok(c) && BraceStep(ls[i].Txt()) == 0
    requires ls[i].token.kind != Close && !IncludeWord(ls[i].Txt())
    ensures Fallback(ls, i, n) == Fallback(ls, c.next, n)
  {
  }

  /** At the end of the tokens the insertion point is known. */
  lemma SoughtEnds(src: string, d: Doc, n: int, anchor: string, insertAt: int, fallback: int)
    requires Parse(src) == Ok(d) && Sought(src, d.lexemes, |d.lexemes|, n, anchor, insertAt, fallback)
    ensures var c := InsertToken(d.lexemes, anchor);
      (if insertAt < 0 then fallback else insertAt) == if c < |d.lexemes| then Start(d.lexemes, c) else |src|
  {
  }

  // ----- the new lines -----

  lemma MissingStep(order: seq<string>, i: nat, keys: set<string>, done: seq<string>)
    requires i < |order|
    ensures var done' := if order[i] in keys then done else done + [order[i]];
      done + MissingKeys(order[i..], keys) == done' + MissingKeys(order[i + 1..], keys)
  {
    assert order[i..][0] == order[i] && order[i..][1..] == order[i + 1..];
    var rest := MissingKeys(order[i + 1..], keys);
    assert MissingKeys(order[i..], keys) == (if order[i] in keys then [] else [order[i]]) + rest;
    assert done + ([order[i]] + rest) == done + [order[i]] + rest;
    assert [] + rest == rest;
  }

  lemma MissingEnds(order: seq<string>, keys: set<string>, done: seq<string>)
    ensures done + MissingKeys(order[|order|..], keys) == done
  {
  }

  lemma MissingBegins(order: seq<string>, keys: set<string>)
    ensures MissingKeys(order, keys) == [] + MissingKeys(order[0..], keys)
  {
  }

  /** The loop over the order. */
  method MissingLines(order: seq<string>, written: set<string>, values: map<string, string>, ghost keys: set<string>) returns (lines: seq<string>)
    requires (forall k :: k in order ==> k in values) && written == keys * values.Keys
    ensures lines == CallLines(MissingKeys(order, keys), values)
  {
    hide CallLine, MissingKeys, SingleQuoted;
    lines := [];
    ghost var done: seq<string> := [];
    var i := 0;
    MissingBegins(order, keys);
    while i < |order|
      invariant i <= |order| && MissingKeys(order, keys) == done + MissingKeys(order[i..], keys)
      invariant |lines| == |done| && forall j :: 0 <= j < |lines| ==> done[j] in values && lines[j] == CallLine(done[j], values[done[j]])
    {
      var key := order[i];
      MissingStep(order, i, keys, done);
      if key !in written {
        CallLineIs(key, values[key]);
        lines := lines + ["define( " + SingleQuoted(key) + ", " + values[key] + " );"];
        done := done + [key];
      }
      i := i + 1;
    }
    MissingEnds(order, keys, done);
  }

  lemma CallLineIs(key: string, value: string)
    ensures "define( " + SingleQuoted(key) + ", " + value + " );" == CallLine(key, value)
  {
  }

  // ----- the method -----

  /** The block of new lines goes in with the edits. */
  method Finish(src: string, edits: seq<E.Edit>, lines: seq<string>, insertAt: nat, ghost missing: seq<string>, values: map<string, string>) returns (r: Result<string, PhpError>)
    requires insertAt <= |src| && (forall k :: k in missing ==> k in values) && lines == CallLines(missing, values)
    ensures var pos := LinePosition(src, insertAt);
      r == E.ApplyEdits(src, edits + if missing == [] then [] else [E.Edit(pos, pos, Block(src, pos, missing, values))])
  {
    hide CallLines, E.ApplyEdits, LineStart;
    if |lines| == 0 {
      assert edits + [] == edits;
      r := E.Apply(src, edits);
      return;
    }
    var at := insertAt;
    var eol := EOL(src);
    var lineStart := LineStart(src[..at]);
    if AllSpace(src[lineStart..at]) { at := lineStart; }
    var block := Join(lines, eol) + eol;
    if at > 0 && src[at - 1] != '\n' { block := eol + block; }
    assert block == Block(src, at, missing, values);
    r := E.Apply(src, edits + [E.Edit(at, at, block)]);
  }

  /** Why the walk over the calls is broken off: the arguments of a call, or a managed
      key that was met before, whichever comes first. */
  function WalkError(ls: seq<Lexeme>, i: nat, written: set<string>, values: map<string, string>): Option<PhpError>
    requires i <= |ls|
    decreases |ls| - i
  {
    if i == |ls| then None
    else if !IsDefine(ls, i) then WalkError(ls, i + 1, written, values)
    else
      match DefineAt(ls, i)
      case Err(e) => Some(e)
      case Ok(d) =>
        if d.key in values && d.key in written then Some(DuplicateConstant)
        else WalkError(ls, d.next, if d.key in values then written + {d.key} else written, values)
  }

  /** Why the source is refused before anything is edited. */
  function SourceError(src: string, values: map<string, string>): Option<PhpError> {
    match Parse(src)
    case Err(e) => Some(e)
    case Ok(d) => WalkError(d.lexemes, 0, {}, values)
  }

  lemma ErrorSkips(ls: seq<Lexeme>, i: nat, written: set<string>, values: map<string, string>)
    requires i < |ls| && !IsDefine(ls, i)
    ensures WalkError(ls, i, written, values) == WalkError(ls, i + 1, written, values)
  {
  }

  lemma ErrorTakes(ls: seq<Lexeme>, i: nat, written: set<string>, values: map<string, string>)
    requires i < |ls| && IsDefine(ls, i)
    ensures WalkError(ls, i, written, values) ==
      match DefineAt(ls, i)
      case Err(e) => Some(e)
      case Ok(d) =>
        if d.key in values && d.key in written then Some(DuplicateConstant)
        else WalkError(ls, d.next, if d.key in values then written + {d.key} else written, values)
  {
  }

  lemma ErrorEnds(ls: seq<Lexeme>, written: set<string>, values: map<string, string>)
    ensures WalkError(ls, |ls|, written, values) == None
  {
  }

  lemma SourceErrorIs(src: string, d: Doc, values: map<string, string>)
    requires Parse(src) == Ok(d)
    ensures SourceError(src, values) == WalkError(d.lexemes, 0, {}, values)
  {
  }

  /** patchPHPConstants: the first reason to refuse the source is reported. */
  method PatchConstantsIn(src: string, values: map<string, string>, order: seq<string>, anchor: string) returns (r: Result<string, PhpError>)
    requires forall k :: k in order ==> k in values
    ensures r.Ok? <==> PatchConstants(src, values, order, anchor).Ok?
    ensures r == match SourceError(src, values) case Some(e) => Err(e) case None => PatchConstants(src, values, order, anchor)
  {
    hide WalkError, Parse, Walk, Start, End, IsDefine, DefineAt, Walked, Sought, Same, Quotes, Anchor, Fallback, E.ApplyEdits, Edits, Duplicated, Keys, MissingKeys, CallLines, IncludeWord, Block, InsertToken, FallbackAfter;
    var doc := ScanPHP(src);
    if doc.Err? { return Err(doc.error); }
    var tokens := doc.value.tokens;
    ghost var d := Parse(src).value;
    ghost var ls := d.lexemes;
    LocatedSame(tokens, ls);
    QuotesHold(src, d, tokens);
    SourceErrorIs(src, d, values);
    var edits: seq<E.Edit> := [];
    var written: set<string> := {};
    var insertAt, fallback, depth, i := -1, |src|, 0, 0;
    ghost var ds: seq<Define> := [];
    WalkedStarts(ls, values);
    SoughtStarts(src, ls, anchor);
    while i < |tokens|
      invariant 0 <= i <= |tokens|
      invariant Walked(ls, ds, i, values, written, edits) && Sought(src, ls, i, depth, anchor, insertAt, fallback)
      invariant WalkError(ls, 0, {}, values) == WalkError(ls, i, written, values)
    {
      var t := tokens[i];
      ghost var before, n := fallback, depth;
      SameText(tokens, ls, i);
      if t.text == "{" { depth := depth + 1; }
      if t.text == "}" { depth := depth - 1; }
      if depth == 0 && (t.kind == Close || IncludeWord(t.text)) {
        if t.start < fallback { fallback := t.start; }
      }
      FallbackIs(ls, i, depth, before, fallback);
      var define := StartsDefine(tokens, i, ls);
      if !define {
        WalkSkips(ls, ds, i, values, written, edits);
        ErrorSkips(ls, i, written, values);
        SoughtSkips(src, d, i, n, anchor, insertAt, before);
        i := i + 1;
        continue;
      }
      var call := DefineCall(tokens, i, ls);
      ErrorTakes(ls, i, written, values);
      if call.Err? {
        WalkBreaks(ls, ds, i, values, written, edits);
        return Err(call.error);
      }
      var c := call.value;
      CallUndisturbed(src, d, i, n, before);
      WalkTakes(ls, ds, i, values, written, edits, c);
      SoughtTakes(src, d, i, n, anchor, insertAt, before, c);
      if c.key == anchor && insertAt < 0 && depth == 0 { insertAt := t.start; }
      if c.key in values {
        if c.key in written { return Err(DuplicateConstant); }
        written := written + {c.key};
        edits := edits + [E.Edit(tokens[c.first].start, tokens[c.last - 1].end, values[c.key])];
      }
      ds := ds + [c];
      i := c.next;
    }
    SoughtEnds(src, d, depth, anchor, insertAt, fallback);
    ErrorEnds(ls, written, values);
    WalkedEnds(ls, ds, values, written, edits);
    if insertAt < 0 { insertAt := fallback; }
    StartsWithin(src, d);
    WalkWithin(ls, 0);
    var lines := MissingLines(order, written, values, Keys(ds));
    r := Finish(src, edits, lines, insertAt, MissingKeys(order, Keys(ds)), values);
  }

  lemma WalkedStarts(ls: seq<Lexeme>, values: map<string, string>)
    ensures Walked(ls, [], 0, values, {}, [])
  {
    hide IsDefine;
    var r := Walk(ls, 0);
    if r.Ok? { assert [] + r.value == r.value; }
  }

  lemma WalkedEnds(ls: seq<Lexeme>, ds: seq<Define>, values: map<string, string>, written: set<string>, edits: seq<E.Edit>)
    requires Walked(ls, ds, |ls|, values, written, edits)
    ensures Walk(ls, 0) == Ok(ds) && AllWithin(ls, ds) && edits == Edits(ls, ds, values, |ds|)
    ensures !Duplicated(ds, values) && written == Keys(ds) * values.Keys
  {
    hide Edits, Duplicated, Keys;
    WalkEnd(ls);
    assert ds + [] == ds;
  }

  lemma SameText(tokens: seq<Token>, ls: seq<Lexeme>, i: nat)
    requires Same(tokens, ls) && i < |tokens|
    ensures i < |ls| && tokens[i].text == ls[i].Txt() && tokens[i].kind == ls[i].token.kind
  {
  }

  lemma FallbackIs(ls: seq<Lexeme>, i: nat, n: int, before: int, after: int)
    requires i < |ls|
    requires after == if n == 0 && (ls[i].token.kind == Close || IncludeWord(ls[i].Txt())) && Start(ls, i) < before then Start(ls, i) else before
    ensures after == FallbackAfter(ls, i, n, before)
  {
  }

  /** A call of define changes neither the depth nor the fallback. */
  lemma CallUndisturbed(src: string, d: Doc, i: nat, n: int, fallback: int)
    requires Parse(src) == Ok(d) && i < |d.lexemes| && IsDefine(d.lexemes, i)
    ensures BraceStep(d.lexemes[i].Txt()) == 0 && d.lexemes[i].Txt() != "{" && d.lexemes[i].Txt() != "}"
    ensures FallbackAfter(d.lexemes, i, n, fallback) == fallback
  {
    hide Parse, Start, IncludeWord, IsDefine;
    DefineNoBrace(d.lexemes, i);
    DefineNoStop(src, d, i);
  }
}
