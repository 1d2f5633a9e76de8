/** What patchPHPConstants writes, byte for byte: the values of the calls that are there
    are exchanged, and each missing call gets a line of its own. */
module PhpConstantBytes {
  import opened Text
  import opened PhpLexer
  import opened PhpTokens
  import opened PhpLiterals
  import opened PhpArrayPatch
  import opened PhpDefines
  import opened PhpConstants
  import opened PhpConstantText
  import opened PhpConstantPatch
  import opened PhpConstantLaws
  import opened PhpConstantRuns
  import X = PhpConstantExact
  import P = PhpConstantPlace
  import O = PhpOutline
  import E = PhpEdits

  // ----- lines -----

  /** One line for each key. */
  function Lines(keys: seq<string>, values: map<string, string>, eol: string): string
    requires forall k :: k in keys ==> k in values
  {
    if keys == [] then "" else "define( " + SingleQuoted(keys[0]) + ", " + values[keys[0]] + " );" + eol + Lines(keys[1..], values, eol)
  }

  lemma {:induction false} LinesIs(keys: seq<string>, values: map<string, string>, eol: string)
    requires keys != [] && forall k :: k in keys ==> k in values
    ensures Join(CallLines(keys, values), eol) + eol == Lines(keys, values, eol)
  {
    hide SingleQuoted;
    var lines := CallLines(keys, values);
    assert lines[1..] == CallLines(keys[1..], values);
    if |keys| > 1 {
      LinesIs(keys[1..], values, eol);
    } else {
      assert Lines(keys[1..], values, eol) == "";
    }
  }

  /** An insertion moves over spaces to the start of its line, and only there. */
  lemma LineIs(src: string, at: nat)
    requires at <= |src|
    ensures var pos := LinePosition(src, at);
      && AllSpace(src[pos..at]) && (pos == 0 || src[pos - 1] == '\n' || (pos == at && MidLine(src, at)))
  {
    hide IsSpace, MidLine, LineStart;
    LineFound(src, at);
  }

  // ----- the text around the insertion -----

  /** An empty edit changes nothing. */
  lemma NoEdit(src: string, a: seq<E.Edit>, pos: nat, b: seq<E.Edit>)
    requires E.Chain(|src|, a) && pos <= |src| && pos <= E.LastStart(|src|, a) && E.Chain(pos, b)
    ensures E.ApplySorted(src, |src|, a + [E.Edit(pos, pos, "")] + b) == E.ApplySorted(src, |src|, a + b)
  {
    hide E.ApplySorted, E.Chain;
    E.ChainApplies(src, |src|, a);
    var src1, n := E.ApplySorted(src, |src|, a).value, E.LastStart(|src|, a);
    assert src1 == src1[..pos] + "" + src1[pos..];
    E.ApplyAround(src, a, E.Edit(pos, pos, ""), b, src1, src1);
    E.ApplyConcat(src, |src|, a, b);
    Sooner(src1, pos, n, b);
  }

  /** Edits that end sooner may start later. */
  lemma Sooner(src: string, pos: nat, previous: nat, es: seq<E.Edit>)
    requires pos <= previous <= |src| && E.Chain(pos, es)
    ensures E.ApplySorted(src, pos, es) == E.ApplySorted(src, previous, es)
  {
  }

  /** The character before the insertion stays before it. */
  lemma LastStays(src: string, pos: nat, es: seq<E.Edit>, x: string)
    requires 0 < pos <= |src| && E.Chain(pos - 1, es) && E.ApplySorted(src, pos, es) == Ok(x + src[pos..])
    ensures x != "" && x[|x| - 1] == src[pos - 1]
  {
    hide E.ApplySorted, E.Chain;
    var head, tail := src[..pos - 1], src[pos - 1..];
    assert head + tail == src && tail == [src[pos - 1]] + src[pos..];
    E.ChainAppend(head, tail, pos - 1, es);
    Sooner(src, pos - 1, pos, es);
    var y := E.ApplySorted(head, pos - 1, es).value;
    assert y + tail == y + [src[pos - 1]] + src[pos..];
    Cancel(x, y + [src[pos - 1]], src[pos..]);
  }

  lemma Cancel(a: string, b: string, c: string)
    requires a + c == b + c
    ensures a == b
  {
    assert |a| == |b| && (a + c)[..|a|] == a && (b + c)[..|b|] == b;
  }

  /** The calls before the insertion end before the character in front of it. */
  lemma EndsBefore(src: string, d: Doc, c: nat, k: nat, ds: seq<Define>)
    requires Parse(src) == Ok(d) && Walk(d.lexemes, 0) == Ok(ds) && c <= |d.lexemes| && k <= |Gap(d, c)| && Passes(d.lexemes, 0, c)
    ensures var m, pos := |WalkTo(d.lexemes, 0, c)|, |Flatten(Head(d, c, k))|;
      m <= |ds| && AllWithin(d.lexemes, ds) && forall i :: 0 <= i < m ==> End(d.lexemes, ds[i].last - 1) < pos
  {
    hide Parse, Walk, Start, End, Passes, WalkTo, Pieces, Flatten, Head, Gap;
    var ls := d.lexemes;
    var m, pos := |WalkTo(ls, 0, c)|, |Flatten(Head(d, c, k))|;
    SpotSplits(ls, c, ds);
    StartHead(d, c, k);
    StartsWithin(src, d);
    forall i | 0 <= i < m
      ensures End(ls, ds[i].last - 1) < pos
    {
      StartMonotone(src, d, ds[i].last - 1, c - 1);
    }
  }

  /** The text with the values exchanged, cut at the insertion. */
  lemma CutText(src: string, d: Doc, ds: seq<Define>, values: map<string, string>, c: nat, k: nat) returns (x: string, y: string)
    requires Parse(src) == Ok(d) && Walk(d.lexemes, 0) == Ok(ds) && c <= |d.lexemes| && k <= |Gap(d, c)| && Passes(d.lexemes, 0, c)
    requires 0 < |Flatten(Head(d, c, k))| <= |src|
    ensures AllWithin(d.lexemes, ds)
    ensures var pos := |Flatten(Head(d, c, k))|;
      && E.ApplyEdits(src, Edits(d.lexemes, ds, values, |ds|)) == Ok(x + y)
      && (forall w :: E.ApplyEdits(src, Edits(d.lexemes, ds, values, |ds|) + [E.Edit(pos, pos, w)]) == Ok(x + w + y))
      && x != "" && x[|x| - 1] == src[pos - 1]
  {
    hide Parse, Walk, Start, End, Passes, WalkTo, Pieces, Flatten, Head, Gap, Down, Edits, E.ApplySorted, E.ApplyEdits, E.Chain, E.LastStart;
    var ls := d.lexemes;
    var m, pos, n := |WalkTo(ls, 0, c)|, |Flatten(Head(d, c, k))|, |ds|;
    SpotBounds(src, d, c, k, ds);
    EndsBefore(src, d, c, k, ds);
    X.CallsInText(src, d, ds);
    if m < n { StartMonotone(src, d, ds[m].first, ds[m].first); }
    X.DownChain(src, d, ds, values, m, n, |src|, pos);
    X.DownChain(src, d, ds, values, 0, m, pos, 0);
    var a, b := Down(ls, ds, values, m, n), Down(ls, ds, values, 0, m);
    x, y := E.AroundOne(src, a, E.Edit(pos, pos, ""), b);
    forall w
      ensures E.ApplyEdits(src, Edits(ls, ds, values, n) + [E.Edit(pos, pos, w)]) == Ok(x + w + y)
    {
      assert Around(ls, ds, values, m, n, E.Edit(pos, pos, w)) == a + [E.Edit(pos, pos, w)] + b;
      AroundSorts(src, d, ds, values, m, E.Edit(pos, pos, w));
    }
    DownSplit(ls, ds, values, 0, m, n);
    NoEdit(src, a, pos, b);
    assert Around(ls, ds, values, m, n, E.Edit(pos, pos, "")) == a + [E.Edit(pos, pos, "")] + b;
    assert x + "" + y == x + y;
    DownSorts(src, d, ds, values);
    X.DownChain(src, d, ds, values, 0, m, pos - 1, 0);
    LastStays(src, pos, b, x);
  }

  /** Where the line of the added calls starts, and what it starts behind. */
  predicate Inserted(src: string, pos: nat, at: nat, lead: string) {
    && 0 < pos <= at <= |src| && AllSpace(src[pos..at])
    && (lead == "" <==> src[pos - 1] == '\n') && (lead == "" || lead == EOL(src))
    && (lead != "" ==> pos == at && MidLine(src, at))
  }

  /** Without a missing key the values are exchanged and nothing else happens; else the
      missing calls come in as lines of their own, in the given order, at the start of
      the line where they belong, or behind a line break of their own if something else
      stands there. */
  lemma ConstantsBytes(src: string, values: map<string, string>, order: seq<string>, anchor: string)
      returns (x: string, y: string, lead: string, pos: nat)
    requires (forall k :: k in order ==> k in values) && PatchConstants(src, values, order, anchor).Ok?
    ensures Constants(src).Ok? && AllWithin(Parse(src).value.lexemes, Walk(Parse(src).value.lexemes, 0).value)
    ensures
      var ls := Parse(src).value.lexemes;
      var missing := P.Lacking(order, O.Outline(ls));
      var c := InsertToken(ls, anchor);
      var at := if c < |ls| then Start(ls, c) else |src|;
      && E.ApplyEdits(src, Edits(ls, Walk(ls, 0).value, values, |Walk(ls, 0).value|)) == Ok(x + y)
      && (missing == [] ==> PatchConstants(src, values, order, anchor) == Ok(x + y))
      && (missing != [] ==>
            && Inserted(src, pos, at, lead) && x != "" && x[|x| - 1] == src[pos - 1]
            && (forall k :: k in missing ==> k in values)
            && PatchConstants(src, values, order, anchor) == Ok(x + (lead + Lines(missing, values, EOL(src))) + y))
  {
    hide Parse, Walk, Start, End, Passes, WalkTo, Pieces, Flatten, Head, Gap, Down, Edits, E.ApplyEdits, Duplicated, MissingKeys, Keys, InsertPosition, LinePosition, Lines, P.Lacking, O.Outline, InsertToken, Spot, MidLine, InPhp;
    var d := Parse(src).value;
    var ls := d.lexemes;
    var ds := Walk(ls, 0).value;
    WalkWithin(ls, 0);
    StartsWithin(src, d);
    P.OutlineKeys(ls, ds);
    P.LackingIs(order, Keys(ds), O.Outline(ls));
    var missing := MissingKeys(order, Keys(ds));
    var k := InsertSpot(src, d, anchor);
    var c := Spot(src, ls, anchor);
    pos := InsertPosition(src, ls, anchor);
    BeforeBlock(src, d, c, k);
    x, y := CutText(src, d, ds, values, c, k);
    lead := if src[pos - 1] != '\n' then EOL(src) else "";
    if missing == [] {
      X.PlainPatch(src, d, ds, values, order, anchor);
    } else {
      X.BlockPatch(src, d, ds, values, order, anchor);
      LinesIs(missing, values, EOL(src));
      AtLine(src, ls, anchor);
    }
  }

  lemma AtLine(src: string, ls: seq<Lexeme>, anchor: string)
    requires forall i :: 0 <= i < |ls| ==> Start(ls, i) <= |src|
    ensures
      var c, pos := InsertToken(ls, anchor), InsertPosition(src, ls, anchor);
      var at := if c < |ls| then Start(ls, c) else |src|;
      && pos <= at <= |src| && AllSpace(src[pos..at]) && (pos == 0 || src[pos - 1] == '\n' || (pos == at && MidLine(src, at)))
  {
    hide Start, InsertToken, MidLine, LinePosition;
    var c := InsertToken(ls, anchor);
    LineIs(src, if c < |ls| then Start(ls, c) else |src|);
  }
}
