/** The laws of patchPHPConstants: after it succeeds every managed key is found in
    exactly one call, with its value; every other call is as it was; and a second
    run changes nothing. */
module PhpConstantLaws {
  import opened Text
  import opened PhpLexer
  import opened PhpTokens
  import opened PhpSplice
  import opened PhpScalars
  import opened PhpEntries
  import opened PhpArrayPatch
  import opened PhpDefines
  import opened PhpConstants
  import opened PhpConstantText
  import opened PhpConstantPatch
  import E = PhpEdits
  import O = PhpOutline

  // ----- where the block goes -----

  /** The first token that does not start before pos, looking back from token c. */
  function SpotToken(ls: seq<Lexeme>, c: nat, pos: nat): (r: nat)
    requires c <= |ls|
    ensures r <= c
  {
    if c > 0 && Start(ls, c - 1) >= pos then SpotToken(ls, c - 1, pos) else c
  }

  /** The token in front of which new calls are read. */
  function Spot(src: string, ls: seq<Lexeme>, anchor: string): (c: nat)
    requires forall i :: 0 <= i < |ls| ==> Start(ls, i) <= |src|
    ensures c <= |ls|
  {
    SpotToken(ls, InsertToken(ls, anchor), InsertPosition(src, ls, anchor))
  }

  lemma {:induction false} SpotIs(ls: seq<Lexeme>, c: nat, pos: nat, c': nat)
    requires c' <= c <= |ls| && (forall i :: c' <= i < c ==> Start(ls, i) >= pos) && (c' > 0 ==> Start(ls, c' - 1) < pos)
    ensures SpotToken(ls, c, pos) == c'
    decreases c
  {
    hide Start;
    if c' < c { SpotIs(ls, c - 1, pos, c'); }
  }

  predicate NotCall(s: string) { s != "(" && s != "\\" }

  /** The insertion token is read in PHP mode and is a step of the walk. */
  lemma InsertTokenFits(src: string, d: Doc, anchor: string)
    requires Parse(src) == Ok(d) && Walk(d.lexemes, 0).Ok?
    ensures var c := InsertToken(d.lexemes, anchor);
      && c <= |d.lexemes| && InPhp(d, c) && Passes(d.lexemes, 0, c)
      && (c < |d.lexemes| ==> NotCall(d.lexemes[c].Txt()))
  {
    hide Parse, Walk, Passes, Anchor, Fallback, Pieces, ModeAfter, CallAt;
    var ls := d.lexemes;
    var c := InsertToken(ls, anchor);
    if Anchor(ls, 0, 0, anchor).Some? {
      AnchorBound(ls, 0, 0, anchor);
      ModeAt(src, d, c);
    } else if Fallback(ls, 0, 0).Some? {
      FallbackBound(ls, 0, 0);
      ModeAt(src, d, c);
      if ls[c].token.kind != Close { IncludeLetters(ls[c].Txt()); }
    } else {
      EndsInPhp(src, d);
      WalkPassesEnd(ls, 0);
    }
  }

  lemma IncludeLetters(s: string)
    requires IncludeWord(s)
    ensures NotCall(s) && s != "<?php"
  {
  }

  lemma {:induction false} StartHead(d: Doc, c: nat, k: nat)
    requires c <= |d.lexemes| && k <= |Gap(d, c)|
    ensures |Flatten(Pieces(d.lexemes[..c]))| <= |Flatten(Head(d, c, k))|
    ensures c < |d.lexemes| ==> |Flatten(Head(d, c, k))| <= Start(d.lexemes, c)
    ensures c > 0 ==> End(d.lexemes, c - 1) <= |Flatten(Head(d, c, k))|
  {
    hide Pieces, Flatten;
    var a, g := Pieces(d.lexemes[..c]), Gap(d, c);
    FlattenConcat(a, g[..k]);
    FlattenConcat(a, g);
    assert g == g[..k] + g[k..];
    FlattenConcat(g[..k], g[k..]);
  }

  lemma HeadFull(src: string, d: Doc, c: nat)
    requires Parse(src) == Ok(d) && c <= |d.lexemes|
    ensures var at := if c < |d.lexemes| then Start(d.lexemes, c) else |src|;
      at <= |src| && src[..at] == Flatten(Head(d, c, |Gap(d, c)|))
  {
    hide Parse, Pieces, Flatten;
    assert Gap(d, c)[..|Gap(d, c)|] == Gap(d, c);
    if c < |d.lexemes| {
      Offsets(src, d, c);
    } else {
      assert d.lexemes[..c] == d.lexemes;
      ParseScan(src);
      assert src[..|src|] == src;
    }
  }

  lemma SpaceNotCall(s: string)
    requires s != "" && AllSpace(s)
    ensures NotCall(s)
  {
    assert IsSpace(s[0]);
  }

  lemma InsertSpot(src: string, d: Doc, anchor: string) returns (k: nat)
    requires Parse(src) == Ok(d) && Walk(d.lexemes, 0).Ok?
    ensures forall i :: 0 <= i < |d.lexemes| ==> Start(d.lexemes, i) <= |src|
    ensures var c, pos := Spot(src, d.lexemes, anchor), InsertPosition(src, d.lexemes, anchor);
      && k <= |Gap(d, c)| && |Flatten(Head(d, c, k))| == pos && InPhp(d, c) && Passes(d.lexemes, 0, c)
      && (c < |d.lexemes| ==> NotCall(d.lexemes[c].Txt()))
  {
    hide Parse, Walk, Passes, Pieces, Flatten, ModeAfter, LineStart, Start, End, Head, InsertToken, Gap, InPhp;
    var ls := d.lexemes;
    StartsWithin(src, d);
    var c0 := InsertToken(ls, anchor);
    InsertTokenFits(src, d, anchor);
    HeadFull(src, d, c0);
    var at := if c0 < |ls| then Start(ls, c0) else |src|;
    var f := src[..at];
    var n, c := LineStart(f), c0;
    k := |Gap(d, c0)|;
    if AllSpace(src[n..at]) {
      assert src[n..at] == f[n..];
      c, k := LineInGaps(src, d, c0, k);
      if c < c0 { SpaceNotCall(ls[c].Txt()); }
    }
    var pos := InsertPosition(src, ls, anchor);
    assert |Flatten(Head(d, c, k))| == pos;
    StartHead(d, c, k);
    forall i | c <= i < c0
      ensures Start(ls, i) >= pos
    {
      StartMonotone(src, d, c, i);
    }
    SpotIs(ls, c0, pos, c);
  }

  /** The last piece before an insertion is not HTML, and ends a line only as a blank. */
  lemma LastOfHead(src: string, d: Doc, c: nat, k: nat)
    requires Parse(src) == Ok(d) && c <= |d.lexemes| && k <= |Gap(d, c)| && InPhp(d, c)
    ensures var pre := Head(d, c, k);
      && pre != []
      && var p := pre[|pre| - 1];
        p.kind != Html && p.text != "" && (p.text[|p.text| - 1] == '\n' ==> p.kind == Blank)
  {
    hide Parse, Pieces, Flatten, InPhp, IsLineComment;
    if k > 0 {
      GapPart(src, d, c, k - 1);
      assert Head(d, c, k)[|Head(d, c, k)| - 1] == Gap(d, c)[k - 1];
    } else {
      TokenOfHead(src, d, c);
    }
  }

  lemma TokenOfHead(src: string, d: Doc, c: nat)
    requires Parse(src) == Ok(d) && c <= |d.lexemes| && InPhp(d, c)
    ensures c > 0
    ensures var pre, p := Head(d, c, 0), d.lexemes[c - 1].token;
      && pre != [] && pre[|pre| - 1] == p
      && p.kind != Html && p.text != "" && p.text[|p.text| - 1] != '\n'
  {
    hide Parse, Pieces, Flatten, InPhp;
    HeadRest(src, d, c, 0);
    NonEmptyHead(d, c);
    LastPiece(d.lexemes, c);
    assert Head(d, c, 0) == Pieces(d.lexemes[..c]);
    TokenEnd(src, d, c - 1);
    ParseScan(src);
    assert d.lexemes[c - 1] in d.lexemes;
  }

  /** What stands before the block, and how the block starts. */
  lemma BeforeBlock(src: string, d: Doc, c: nat, k: nat)
    requires Parse(src) == Ok(d) && c <= |d.lexemes| && k <= |Gap(d, c)| && InPhp(d, c)
    ensures var pre := Head(d, c, k);
      && pre != [] && 0 < |Flatten(pre)| <= |src| && pre[|pre| - 1].kind != Html
      && (src[|Flatten(pre)| - 1] == '\n' ==> pre[|pre| - 1].kind == Blank)
  {
    hide Parse, Pieces, Flatten, InPhp, Head, Gap;
    HeadRest(src, d, c, k);
    LastOfHead(src, d, c, k);
    var pre := Head(d, c, k);
    var n := |pre| - 1;
    var p := pre[n];
    assert pre == pre[..n] + [p];
    FlattenConcat(pre[..n], [p]);
    FlattenOne(p);
    assert src[|Flatten(pre)| - 1] == p.text[|p.text| - 1];
  }

  lemma NonEmptyHead(d: Doc, c: nat)
    requires c <= |d.lexemes| && ModeAfter(Head(d, c, 0), false)
    ensures c > 0
  {
  }

  /** A token of an insertion that suppresses calls is no call itself. */
  lemma SpotNoCall(src: string, d: Doc, anchor: string)
    requires Parse(src) == Ok(d) && Walk(d.lexemes, 0).Ok?
    requires forall i :: 0 <= i < |d.lexemes| ==> Start(d.lexemes, i) <= |src|
    requires Suppressed(d.lexemes, Spot(src, d.lexemes, anchor))
    ensures var c := Spot(src, d.lexemes, anchor); c < |d.lexemes| ==> !FoldsTo(d.lexemes[c].Txt(), "define")
  {
    hide Parse, Walk, Passes, Anchor, Fallback, Start, End, CallAt, InsertPosition, Suppressed;
    var ls := d.lexemes;
    var c, c0 := Spot(src, ls, anchor), InsertToken(ls, anchor);
    if c < |ls| {
      if c == c0 {
        if Anchor(ls, 0, 0, anchor).Some? {
          AnchorBound(ls, 0, 0, anchor);
        } else if Fallback(ls, 0, 0).Some? {
          FallbackBound(ls, 0, 0);
          ModeAt(src, d, c);
          if ls[c].token.kind != Close { IncludeIsNot(ls[c].Txt()); }
        }
      } else {
        SpotSpace(src, d, anchor, c);
      }
    }
  }

  lemma IncludeIsNot(s: string)
    requires IncludeWord(s)
    ensures !FoldsTo(s, "define")
  {
  }

  /** Tokens passed over on the way to the start of the line are made of spaces. */
  lemma SpotSpace(src: string, d: Doc, anchor: string, j: nat)
    requires Parse(src) == Ok(d) && Walk(d.lexemes, 0).Ok?
    requires forall i :: 0 <= i < |d.lexemes| ==> Start(d.lexemes, i) <= |src|
    requires Spot(src, d.lexemes, anchor) <= j < InsertToken(d.lexemes, anchor)
    ensures var t := d.lexemes[j].Txt(); t != "" && AllSpace(t) && !FoldsTo(t, "define")
  {
    hide Parse, Walk, Pieces, Flatten, Start, End, InsertToken;
    var ls := d.lexemes;
    var c, c0, pos := Spot(src, ls, anchor), InsertToken(ls, anchor), InsertPosition(src, ls, anchor);
    StartsWithin(src, d);
    SpotAfter(ls, c0, pos);
    var at := if c0 < |ls| then Start(ls, c0) else |src|;
    Offsets(src, d, j);
    StartMonotone(src, d, c, j);
    if c0 < |ls| { StartMonotone(src, d, j, c0); }
    var n := LineStart(src[..at]);
    var t := ls[j].Txt();
    SpaceInside(src, n, at, Start(ls, j), End(ls, j), t);
    ModeAt(src, d, j);
    NotDefine(t);
  }

  lemma SpaceInside(src: string, n: nat, at: nat, a: nat, b: nat, t: string)
    requires n <= a <= b <= at <= |src| && AllSpace(src[n..at]) && src[a..b] == t
    ensures AllSpace(t)
  {
    hide IsSpace;
    forall i | 0 <= i < |t|
      ensures IsSpace(t[i])
    {
      assert t[i] == src[a + i] == src[n..at][a - n + i];
    }
  }

  lemma NotDefine(t: string)
    requires t != "" && AllSpace(t)
    ensures !FoldsTo(t, "define")
  {
    assert IsSpace(t[0]);
  }

  lemma {:induction false} SpotAfter(ls: seq<Lexeme>, c: nat, pos: nat)
    requires c <= |ls|
    ensures var r := SpotToken(ls, c, pos); r < c ==> Start(ls, r) >= pos
    decreases c
  {
    hide Start;
    if c > 0 && Start(ls, c - 1) >= pos { SpotAfter(ls, c - 1, pos); }
  }

  /** Calls may be inserted at the insertion point. */
  lemma SpotInsertable(src: string, d: Doc, anchor: string)
    requires Parse(src) == Ok(d) && Walk(d.lexemes, 0).Ok?
    requires forall i :: 0 <= i < |d.lexemes| ==> Start(d.lexemes, i) <= |src|
    ensures Insertable(d.lexemes, Spot(src, d.lexemes, anchor))
  {
    hide Parse, Walk, Suppressed, FoldsTo, Spot, InsertPosition, Start, Passes, InPhp, Flatten, Pieces;
    var k := InsertSpot(src, d, anchor);
    if Suppressed(d.lexemes, Spot(src, d.lexemes, anchor)) { SpotNoCall(src, d, anchor); }
  }

  // ----- the insertion as an edit -----

  /** After the values of later calls have been replaced, the insertion point is
      where it was. */
  lemma SpotStays(src: string, d: Doc, d1: Doc, c: nat, n: nat)
    requires Parse(src) == Ok(d) && c <= |d.lexemes| && InPhp(d, c) && Passes(d.lexemes, 0, c)
    requires Insertable(d.lexemes, c)
    requires d1.tail == d.tail && (d1 == d || (c < n <= |d1.lexemes| && n <= |d.lexemes| && d1.lexemes[..n] == d.lexemes[..n]))
    ensures c <= |d1.lexemes| && Gap(d1, c) == Gap(d, c) && InPhp(d1, c) && Passes(d1.lexemes, 0, c) && WalkTo(d1.lexemes, 0, c) == WalkTo(d.lexemes, 0, c)
    ensures forall k: nat :: k <= |Gap(d, c)| ==> Head(d1, c, k) == Head(d, c, k)
    ensures Suppressed(d.lexemes, c) <==> Suppressed(d1.lexemes, c)
    ensures Insertable(d1.lexemes, c)
    ensures d1.lexemes[..c] == d.lexemes[..c]
  {
    hide Parse, Passes, WalkTo, Pieces;
    if d1 != d {
      assert d1.lexemes[c] == d1.lexemes[..n][c] == d.lexemes[..n][c] == d.lexemes[c];
      assert d1.lexemes[..c] == d1.lexemes[..n][..c] == d.lexemes[..n][..c] == d.lexemes[..c];
      SetPrefix(d.lexemes, c, n, d1.lexemes);
      SuppressedPrefix(d.lexemes[..c], d.lexemes, c);
      SuppressedPrefix(d1.lexemes[..c], d1.lexemes, c);
    }
  }

  /** What the block adds to the calls of the document. */
  lemma BlockCalls(d: Doc, c: nat, k: nat, lead: string, eol: string, ns: seq<NewCall>, ds: seq<Define>, m: nat)
    requires c <= |d.lexemes| && k <= |Gap(d, c)| && ns != [] && ValidCalls(ns)
    requires Walk(d.lexemes, 0) == Ok(ds) && AllWithin(d.lexemes, ds) && Passes(d.lexemes, 0, c) && m == |WalkTo(d.lexemes, 0, c)|
    requires Insertable(d.lexemes, c)
    ensures var ls' := WithCalls(d, c, k, lead, eol, ns).lexemes;
      && c <= |ls'| && ls'[..c] == d.lexemes[..c] && Walk(ls', 0).Ok?
      && var ds' := Walk(ls', 0).value;
      && AllWithin(ls', ds') && m <= |ds| && m <= |ds'| && ds'[..m] == ds[..m]
      && Entries(ls', ds') == Entries(d.lexemes, ds)[..m] + NewEntries(Found(d.lexemes, c, ns)) + Entries(d.lexemes, ds)[m..]
  {
    hide Walk, Passes, WalkTo, NewLexemes, PhpDefines.After, Suppressed, Blanks;
    InsertCalls(d.lexemes, c, Gap(d, c)[..k] + Blanks(lead), eol, ns, Blanks(eol) + Gap(d, c)[k..]);
  }

  /** Unless the first of them is suppressed, the calls of the block show in the outline
      where the block was inserted. */
  lemma BlockOutline(d: Doc, c: nat, k: nat, lead: string, eol: string, ns: seq<NewCall>)
    requires c <= |d.lexemes| && k <= |Gap(d, c)| && ns != [] && ValidCalls(ns)
    requires Walk(d.lexemes, 0).Ok? && Passes(d.lexemes, 0, c) && Insertable(d.lexemes, c) && !Suppressed(d.lexemes, c)
    ensures Grown(d.lexemes, c, WithCalls(d, c, k, lead, eol, ns).lexemes, ns)
  {
    hide Walk, Passes, WalkTo, NewLexemes, PhpDefines.After, Suppressed, Blanks, O.Outline, O.Ahead, O.NewItems;
    O.InsertOutline(d.lexemes, c, Gap(d, c)[..k] + Blanks(lead), eol, ns, Blanks(eol) + Gap(d, c)[k..]);
  }

  /** The outline of ls' is that of ls with new calls where token c stood. */
  predicate Grown(ls: seq<Lexeme>, c: nat, ls': seq<Lexeme>, ns: seq<NewCall>) {
    && Walk(ls, 0).Ok? && Walk(ls', 0).Ok? && c <= |ls| && Passes(ls, 0, c)
    && var n := O.Ahead(ls, c);
      n <= |O.Outline(ls)| && O.Outline(ls') == O.Outline(ls)[..n] + O.NewItems(ns) + O.Outline(ls)[n..]
  }

  lemma GrownSame(ls: seq<Lexeme>, ls1: seq<Lexeme>, c: nat, ls2: seq<Lexeme>, ls': seq<Lexeme>, ns: seq<NewCall>)
    requires Grown(ls1, c, ls2, ns) && Walk(ls, 0).Ok? && Walk(ls', 0).Ok? && O.Outline(ls1) == O.Outline(ls) && O.Outline(ls') == O.Outline(ls2)
    requires c <= |ls| && ls1[..c] == ls[..c] && Passes(ls, 0, c) && WalkTo(ls1, 0, c) == WalkTo(ls, 0, c)
    ensures Grown(ls, c, ls', ns)
  {
    hide Walk, Passes, WalkTo, O.Outline, O.Ahead, O.NewItems;
    O.AheadSame(ls, ls1, c);
  }

  /** The edit replaces some text, from n on. */
  predicate Spans(e: E.Edit, n: int, len: nat) { n <= e.start < e.end <= len }

  predicate AllSpan(es: seq<E.Edit>, n: int, len: nat) {
    forall i :: 0 <= i < |es| ==> Spans(es[i], n, len)
  }

  /** Every edit of a call from lo on replaces some text, behind the call's name. */
  lemma {:induction false} DownSpans(src: string, d: Doc, ds: seq<Define>, values: map<string, string>, lo: nat, k: nat)
    requires Parse(src) == Ok(d) && Walk(d.lexemes, 0) == Ok(ds) && AllWithin(d.lexemes, ds) && lo < |ds| && lo <= k <= |ds|
    ensures ds[lo].first < |d.lexemes| && AllSpan(Down(d.lexemes, ds, values, lo, k), Start(d.lexemes, ds[lo].first), |src|)
    decreases k
  {
    hide Parse, Walk, Start, End, Spans;
    WalkWithin(d.lexemes, 0);
    if k > lo {
      DownSpans(src, d, ds, values, lo, k - 1);
      assert ds[lo].first <= ds[k - 1].first by {
        if lo < k - 1 { assert ds[lo].next <= ds[k - 1].at; }
      }
      var c := ds[k - 1];
      var rest := Down(d.lexemes, ds, values, lo, k - 1);
      if c.key in values {
        CallSpans(src, d, c, ds[lo].first, values[c.key]);
        SpansSnoc(ValueEdit(d.lexemes, c, values[c.key]), rest, Start(d.lexemes, ds[lo].first), |src|);
      } else {
        assert Down(d.lexemes, ds, values, lo, k) == rest;
      }
    }
  }

  lemma SpansSnoc(e: E.Edit, es: seq<E.Edit>, n: int, len: nat)
    requires Spans(e, n, len) && AllSpan(es, n, len)
    ensures AllSpan([e] + es, n, len)
  {
  }

  lemma CallSpans(src: string, d: Doc, c: Define, i: nat, v: string)
    requires Parse(src) == Ok(d) && i <= c.first < c.last <= |d.lexemes|
    ensures Spans(ValueEdit(d.lexemes, c, v), Start(d.lexemes, i), |src|)
  {
    hide Parse, Start, End;
    StartsWithin(src, d);
    StartMonotone(src, d, c.first, c.last - 1);
    StartMonotone(src, d, i, c.first);
  }

  /** The edits of the first n calls around the insertion, in falling order. */
  function Around(ls: seq<Lexeme>, ds: seq<Define>, values: map<string, string>, m: nat, n: nat, e: E.Edit): seq<E.Edit>
    requires AllWithin(ls, ds) && m <= n <= |ds|
  {
    Down(ls, ds, values, m, n) + [e] + Down(ls, ds, values, 0, m)
  }

  lemma AroundSorts(src: string, d: Doc, ds: seq<Define>, values: map<string, string>, m: nat, e: E.Edit)
    requires Parse(src) == Ok(d) && Walk(d.lexemes, 0) == Ok(ds) && AllWithin(d.lexemes, ds) && m <= |ds|
    requires m < |ds| ==> ds[m].first < |d.lexemes| && e.start < Start(d.lexemes, ds[m].first)
    requires E.ApplySorted(src, |src|, Around(d.lexemes, ds, values, m, |ds|, e)).Ok?
    ensures E.ApplyEdits(src, Edits(d.lexemes, ds, values, |ds|) + [e]) == E.ApplySorted(src, |src|, Around(d.lexemes, ds, values, m, |ds|, e))
  {
    hide Parse, Walk, Start, End, E.ApplyEdits, E.ApplySorted, Edits, Down, Text.LineStart, Literals;
    var ls := d.lexemes;
    var a, b, es := Down(ls, ds, values, m, |ds|), Down(ls, ds, values, 0, m), Edits(ls, ds, values, |ds|);
    assert multiset(es) == multiset(a + b) by {
      DownEdits(ls, ds, values, |ds|);
      DownSplit(ls, ds, values, 0, m, |ds|);
      E.ReverseMultiset(es);
    }
    SameEdits(es, a, b, e);
    if m < |ds| { DownSpans(src, d, ds, values, m, |ds|); }
    if m > 0 { DownSpans(src, d, ds, values, 0, m); }
    assert m == 0 ==> b == [] by { DownNone(ls, ds, values, 0); }
    assert m == |ds| ==> a == [] by { DownNone(ls, ds, values, m); }
    AroundFalls(a, e, b, if m < |ds| then Start(ls, ds[m].first) else e.start + 1, if m > 0 then Start(ls, ds[0].first) else 0, |src|);
    E.FallingSorted(src, es + [e], a + [e] + b);
  }

  lemma SameEdits(es: seq<E.Edit>, a: seq<E.Edit>, b: seq<E.Edit>, e: E.Edit)
    requires multiset(es) == multiset(a + b)
    ensures multiset(es + [e]) == multiset(a + [e] + b)
  {
  }

  lemma DownNone(ls: seq<Lexeme>, ds: seq<Define>, values: map<string, string>, k: nat)
    requires AllWithin(ls, ds) && k <= |ds|
    ensures Down(ls, ds, values, k, k) == []
  {
  }

  lemma AroundFalls(a: seq<E.Edit>, e: E.Edit, b: seq<E.Edit>, n: int, n': int, len: nat)
    requires AllSpan(a, n, len) && e.start < n && AllSpan(b, n', len)
    ensures var fs := a + [e] + b; forall i :: 0 < i < |fs| ==> fs[i].start < fs[i].end || fs[i].start < fs[i - 1].start
  {
  }

  lemma SpotBounds(src: string, d: Doc, c: nat, k: nat, ds: seq<Define>)
    requires Parse(src) == Ok(d) && Walk(d.lexemes, 0) == Ok(ds) && c <= |d.lexemes| && k <= |Gap(d, c)| && Passes(d.lexemes, 0, c)
    ensures var m, pos := |WalkTo(d.lexemes, 0, c)|, |Flatten(Head(d, c, k))|;
      && m <= |ds| && AllWithin(d.lexemes, ds)
      && (m < |ds| ==> c < ds[m].first < |d.lexemes| && pos < Start(d.lexemes, ds[m].first))
      && (forall i :: 0 <= i < m ==> ds[i].first < ds[i].last < ds[i].next <= c && End(d.lexemes, ds[i].last - 1) <= pos)
  {
    hide Parse, Walk, Start, End, Passes, WalkTo, Pieces, Flatten, Head, Gap;
    var ls := d.lexemes;
    var m, pos := |WalkTo(ls, 0, c)|, |Flatten(Head(d, c, k))|;
    SpotSplits(ls, c, ds);
    StartHead(d, c, k);
    StartsWithin(src, d);
    if m < |ds| { StartMonotone(src, d, c, ds[m].first); }
    forall i | 0 <= i < m
      ensures End(ls, ds[i].last - 1) <= pos
    {
      StartMonotone(src, d, ds[i].last - 1, c - 1);
    }
  }

  /** The calls before and after a step of the walk. */
  lemma SpotSplits(ls: seq<Lexeme>, c: nat, ds: seq<Define>)
    requires Walk(ls, 0) == Ok(ds) && c <= |ls| && Passes(ls, 0, c)
    ensures var m := |WalkTo(ls, 0, c)|;
      && m <= |ds| && AllWithin(ls, ds)
      && (m < |ds| ==> c <= ds[m].at && ds[m].first == ds[m].at + 4 < |ls|)
      && (forall i :: 0 <= i < m ==> ds[i].first < ds[i].last < ds[i].next <= c)
  {
    hide Walk, Passes, WalkTo;
    WalkSplit(ls, 0, c);
    WalkToBefore(ls, 0, c);
    WalkWithin(ls, 0);
    WalkWithin(ls, c);
    var before, after := WalkTo(ls, 0, c), Walk(ls, c).value;
    assert ds == before + after;
    assert forall i :: 0 <= i < |before| ==> ds[i] == before[i];
    if |before| < |ds| { assert ds[|before|] == after[0]; }
  }

  /** The values of the first n calls can be replaced. */
  predicate Patchable(src: string, d: Doc, ds: seq<Define>, values: map<string, string>, n: nat) {
    && Parse(src) == Ok(d) && Walk(d.lexemes, 0) == Ok(ds) && Literals(values)
    && AllWithin(d.lexemes, ds) && Unswallowed(d.lexemes, ds, values, 0, n)
  }

  /** The edits before the insertion point, in the document with the new calls. */
  lemma EarlierCalls(d: Doc, ds: seq<Define>, d2: Doc, ds2: seq<Define>, values: map<string, string>, m: nat, c: nat, pos: nat)
    requires AllWithin(d.lexemes, ds) && AllWithin(d2.lexemes, ds2) && m <= |ds| && m <= |ds2| && ds2[..m] == ds[..m]
    requires c <= |d.lexemes| && c <= |d2.lexemes| && d2.lexemes[..c] == d.lexemes[..c]
    requires forall i :: 0 <= i < m ==> ds[i].first < ds[i].last < ds[i].next <= c && End(d.lexemes, ds[i].last - 1) <= pos
    requires Unswallowed(d.lexemes, ds, values, 0, m)
    ensures Down(d2.lexemes, ds2, values, 0, m) == Down(d.lexemes, ds, values, 0, m)
    ensures Unswallowed(d2.lexemes, ds2, values, 0, m)
    ensures forall i :: 0 <= i < m ==> ds2[i] == ds[i] && End(d2.lexemes, ds2[i].last - 1) <= pos
  {
    hide Start, End, Swallowed, Down;
    assert forall i :: 0 <= i < m ==> ds2[i] == ds2[..m][i] == ds[..m][i] == ds[i];
    DownPrefix(d.lexemes, ds, d2.lexemes, ds2, values, 0, m, c);
    forall i | 0 <= i < m
      ensures End(d2.lexemes, ds2[i].last - 1) <= pos && d2.lexemes[ds2[i].first] == d.lexemes[ds[i].first]
    {
      StartPrefix(d.lexemes, d2.lexemes, ds[i].last - 1, c);
      StartPrefix(d.lexemes, d2.lexemes, ds[i].first, c);
    }
  }

  lemma {:induction false} LaterCalls(src: string, d: Doc, ds: seq<Define>, values: map<string, string>, m: nat, n: nat)
      returns (src1: string, d1: Doc, ds1: seq<Define>)
    requires Patchable(src, d, ds, values, n) && m <= n <= |ds|
    ensures E.ApplySorted(src, |src|, Down(d.lexemes, ds, values, m, n)) == Ok(src1)
    ensures Parse(src1) == Ok(d1) && Walk(d1.lexemes, 0) == Ok(ds1) && AllWithin(d1.lexemes, ds1)
    ensures SettledIn(Entries(d.lexemes, ds), Entries(d1.lexemes, ds1), values, m, n)
    ensures d1.tail == d.tail && |ds1| == |ds| && ds1[..m] == ds[..m]
    ensures O.Outline(d1.lexemes) == O.Outline(d.lexemes)
    ensures if m == n then d1 == d else Kept(d.lexemes, d1.lexemes, ds[m].first, ds[n - 1].last)
  {
    hide Parse, Walk, Start, End, Swallowed, Literals, Down, Entries, SettledIn, E.ApplySorted, Kept, O.Outline;
    StartsWithin(src, d);
    src1, d1, ds1 := EditsDown(src, d, ds, values, m, n, |src|);
  }

  lemma LaterStart(src: string, d: Doc, ds: seq<Define>, values: map<string, string>, m: nat, n: nat, pos: nat)
    requires Parse(src) == Ok(d) && Walk(d.lexemes, 0) == Ok(ds) && AllWithin(d.lexemes, ds) && m <= n <= |ds| && pos <= |src|
    requires m < |ds| ==> ds[m].first < |d.lexemes| && pos < Start(d.lexemes, ds[m].first)
    ensures pos <= E.LastStart(|src|, Down(d.lexemes, ds, values, m, n))
  {
    hide Parse, Walk, Start, End, Down;
    var es := Down(d.lexemes, ds, values, m, n);
    if m < n {
      DownSpans(src, d, ds, values, m, n);
      assert es != [] ==> Spans(es[|es| - 1], Start(d.lexemes, ds[m].first), |src|);
    } else {
      DownNone(d.lexemes, ds, values, m);
    }
  }

  lemma PatchedEntries(es: seq<Entry>, es1: seq<Entry>, es': seq<Entry>, new': seq<Entry>, values: map<string, string>, m: nat, n: nat) returns (mid: seq<Entry>)
    requires m <= n <= |es| && SettledIn(es, es1, values, m, n) && SettledIn(es1[..m] + new' + es1[m..], es', values, 0, m)
    ensures SettledIn(es, mid, values, 0, n) && m <= |mid| && es' == mid[..m] + new' + mid[m..]
  {
    hide Settled;
    var es2 := es1[..m] + new' + es1[m..];
    mid := es'[..m] + es1[m..];
    forall i | 0 <= i < |es|
      ensures if i < n then Settled(es[i], mid[i], values) else mid[i] == es[i]
    {
      if i < m { assert es2[i] == es1[i] == es[i] && Settled(es2[i], es'[i], values); }
    }
    assert mid[..m] == es'[..m] && mid[m..] == es1[m..];
    assert es'[m..] == es2[m..] by {
      assert forall i :: m <= i < |es'| ==> es'[i] == es2[i];
    }
    assert es2[m..] == new' + es1[m..];
    assert es' == es'[..m] + es'[m..];
  }

  lemma CallsKept(d: Doc, c: nat, k: nat, lead: string, eol: string, ns: seq<NewCall>)
    requires c <= |d.lexemes| && k <= |Gap(d, c)|
    ensures c < |d.lexemes| ==> WithCalls(d, c, k, lead, eol, ns).tail == d.tail && Kept(d.lexemes, WithCalls(d, c, k, lead, eol, ns).lexemes, c, c + 1)
  {
  }

  /** The tokens behind all that was edited. */
  lemma AroundKept(ls: seq<Lexeme>, ls1: seq<Lexeme>, ls2: seq<Lexeme>, ls': seq<Lexeme>, ds: seq<Define>, m: nat, n: nat, c: nat)
    requires m <= n < |ds| && c < ds[m].first && forall i :: m <= i < n ==> ds[i].first < ds[i].last <= ds[n].first <= |ls|
    requires ds[n].first <= |ls| && (m < n ==> ds[m].first < ds[n].first)
    requires if m == n then ls1 == ls else Kept(ls, ls1, ds[m].first, ds[n - 1].last)
    requires c < |ls1| ==> Kept(ls1, ls2, c, c + 1)
    requires if m == 0 then ls' == ls2 else ds[0].first <= ds[m - 1].last <= c && Kept(ls2, ls', ds[0].first, ds[m - 1].last)
    ensures c < |ls1| && Kept(ls, ls', 0, ds[n].first)
  {
    hide Kept;
    var f := ds[n].first;
    if m < n { KeptWider(ls, ls1, ds[m].first, ds[n - 1].last, ds[m].first, f); } else { KeptSame(ls, f, f); }
    KeptLength(ls, ls1, ds[m].first, f);
    KeptTrans(ls, ls1, ls2, ds[m].first, f, c, c + 1);
    KeptLength(ls1, ls2, c, c + 1);
    if m == 0 {
      KeptWider(ls, ls', c, f, 0, f);
    } else {
      KeptLength(ls, ls2, c, f);
      KeptTrans(ls, ls2, ls', c, f, ds[0].first, ds[m - 1].last);
      KeptWider(ls, ls', ds[0].first, f, 0, f);
    }
  }

  lemma KeptLength(ls: seq<Lexeme>, ls': seq<Lexeme>, n: nat, p: nat)
    requires Kept(ls, ls', n, p)
    ensures n <= p <= |ls| && n <= |ls'| - (|ls| - p)
  {
  }

  /** Replacing the values of the calls from m to n, and then inserting the block. */
  lemma InsertAmong(src: string, d: Doc, ds: seq<Define>, values: map<string, string>, c: nat, k: nat, lead: string, eol: string, missing: seq<string>, n: nat)
      returns (src1: string, d1: Doc, ds1: seq<Define>, src2: string, d2: Doc, ds2: seq<Define>)
    requires Patchable(src, d, ds, values, n) && AllBlank(eol) && (lead == "" || lead == eol) && eol != "" && (eol[0] == '\r' || eol[0] == '\n')
    requires c <= |d.lexemes| && k <= |Gap(d, c)| && InPhp(d, c) && Passes(d.lexemes, 0, c) && Insertable(d.lexemes, c)
    requires |WalkTo(d.lexemes, 0, c)| <= n <= |ds| && missing != [] && forall x :: x in missing ==> x in values
    requires |Flatten(Head(d, c, k))| <= |src| && (lead == "" ==> |Flatten(Head(d, c, k))| > 0 && src[|Flatten(Head(d, c, k))| - 1] == '\n')
    ensures var m, pos := |WalkTo(d.lexemes, 0, c)|, |Flatten(Head(d, c, k))|;
      && E.ApplySorted(src, |src|, Down(d.lexemes, ds, values, m, n)) == Ok(src1)
      && AllWithin(d1.lexemes, ds1) && SettledIn(Entries(d.lexemes, ds), Entries(d1.lexemes, ds1), values, m, n)
      && (if m == n then d1 == d else Kept(d.lexemes, d1.lexemes, ds[m].first, ds[n - 1].last))
      && pos <= |src1| && src2 == src1[..pos] + (lead + (Join(CallLines(missing, values), eol) + eol)) + src1[pos..]
      && Parse(src2) == Ok(d2) && Walk(d2.lexemes, 0) == Ok(ds2) && AllWithin(d2.lexemes, ds2)
      && m <= |ds2| && ds2[..m] == ds[..m] && c <= |d2.lexemes| && d2.lexemes[..c] == d.lexemes[..c]
      && Entries(d2.lexemes, ds2) == Entries(d1.lexemes, ds1)[..m] + NewEntries(Found(d.lexemes, c, Calls(missing, values))) + Entries(d1.lexemes, ds1)[m..]
      && (c < |d1.lexemes| ==> d2.tail == d.tail && Kept(d1.lexemes, d2.lexemes, c, c + 1))
      && (!Suppressed(d.lexemes, c) ==> Grown(d.lexemes, c, d2.lexemes, Calls(missing, values)))
  {
    hide Grown, O.Outline, Insertable, Parse, Walk, Start, End, Passes, WalkTo, Pieces, Flatten, Head, Gap, Swallowed, IsLiteral, Literals, Suppressed, InPhp, CallLines, Join, Calls, NotCall, Down, Entries, SettledIn, WithCalls, E.ApplySorted, NewEntries, E.LastStart, ValidCalls, Kept, Unswallowed;
    var m, pos := |WalkTo(d.lexemes, 0, c)|, |Flatten(Head(d, c, k))|;
    var block, ns := lead + (Join(CallLines(missing, values), eol) + eol), Calls(missing, values);
    SpotBounds(src, d, c, k, ds);
    src1, d1, ds1 := LaterCalls(src, d, ds, values, m, n);
    if m < n { KeptPrefix(d.lexemes, d1.lexemes, ds[m].first, ds[n - 1].last); }
    SpotStays(src, d, d1, c, if m < n then ds[m].first else 0);
    BeforeBlock(src, d, c, k);
    CallsValid(missing, values);
    InsertBlock(src1, d1, c, k, lead, missing, values, eol);
    BlockCalls(d1, c, k, lead, eol, ns, ds1, m);
    CallsKept(d1, c, k, lead, eol, ns);
    src2, d2 := src1[..pos] + block + src1[pos..], WithCalls(d1, c, k, lead, eol, ns);
    ds2 := Walk(d2.lexemes, 0).value;
    if !Suppressed(d.lexemes, c) {
      BlockOutline(d1, c, k, lead, eol, ns);
      GrownSame(d.lexemes, d1.lexemes, c, d2.lexemes, d2.lexemes, ns);
    }
  }

  /** Replacing the values of the first n calls and inserting a block of new ones
      among them. */
  lemma {:induction false} PatchAround(src: string, d: Doc, ds: seq<Define>, values: map<string, string>, c: nat, k: nat, lead: string, eol: string, missing: seq<string>, n: nat)
      returns (src': string, d': Doc, ds': seq<Define>, mid: seq<Entry>)
    requires Patchable(src, d, ds, values, n) && AllBlank(eol) && (lead == "" || lead == eol) && eol != "" && (eol[0] == '\r' || eol[0] == '\n')
    requires c <= |d.lexemes| && k <= |Gap(d, c)| && InPhp(d, c) && Passes(d.lexemes, 0, c) && Insertable(d.lexemes, c)
    requires |WalkTo(d.lexemes, 0, c)| <= n <= |ds| && missing != [] && forall x :: x in missing ==> x in values
    requires |Flatten(Head(d, c, k))| <= |src| && (lead == "" ==> |Flatten(Head(d, c, k))| > 0 && src[|Flatten(Head(d, c, k))| - 1] == '\n')
    ensures var m, pos := |WalkTo(d.lexemes, 0, c)|, |Flatten(Head(d, c, k))|;
      && (m < |ds| ==> ds[m].first < |d.lexemes| && pos < Start(d.lexemes, ds[m].first))
      && E.ApplySorted(src, |src|, Around(d.lexemes, ds, values, m, n, E.Edit(pos, pos, lead + (Join(CallLines(missing, values), eol) + eol)))) == Ok(src')
      && Parse(src') == Ok(d') && Walk(d'.lexemes, 0) == Ok(ds') && AllWithin(d'.lexemes, ds')
      && SettledIn(Entries(d.lexemes, ds), mid, values, 0, n)
      && Entries(d'.lexemes, ds') == mid[..m] + NewEntries(Found(d.lexemes, c, Calls(missing, values))) + mid[m..]
      && (n < |ds| ==> d'.tail == d.tail && Kept(d.lexemes, d'.lexemes, 0, ds[n].first))
      && (!Suppressed(d.lexemes, c) ==> Grown(d.lexemes, c, d'.lexemes, Calls(missing, values)))
  {
    hide Grown, O.Outline, Insertable, Parse, Walk, Start, End, Passes, WalkTo, Pieces, Flatten, Head, Gap, Swallowed, IsLiteral, Literals, Suppressed, InPhp, CallLines, Join, Calls, NotCall, Down, Entries, SettledIn, E.ApplySorted, NewEntries, E.LastStart, Kept, Unswallowed, Found;
    var ls := d.lexemes;
    var m, pos := |WalkTo(ls, 0, c)|, |Flatten(Head(d, c, k))|;
    var block, ns := lead + (Join(CallLines(missing, values), eol) + eol), Calls(missing, values);
    SpotBounds(src, d, c, k, ds);
    UnswallowedTo(ls, ds, values, m, n);
    var src1, d1, ds1, src2, d2, ds2 := InsertAmong(src, d, ds, values, c, k, lead, eol, missing, n);
    EarlierCalls(d, ds, d2, ds2, values, m, c, pos);
    src', d', ds' := EditsDown(src2, d2, ds2, values, 0, m, pos);
    if !Suppressed(ls, c) { GrownSame(ls, ls, c, d2.lexemes, d'.lexemes, ns); }
    LaterStart(src, d, ds, values, m, n, pos);
    E.ApplyAround(src, Down(ls, ds, values, m, n), E.Edit(pos, pos, block), Down(ls, ds, values, 0, m), src1, src2);
    mid := PatchedEntries(Entries(ls, ds), Entries(d1.lexemes, ds1), Entries(d'.lexemes, ds'), NewEntries(Found(ls, c, ns)), values, m, n);
    if n < |ds| {
      CallsAscend(ls, ds, m, n);
      AroundKept(ls, d1.lexemes, d2.lexemes, d'.lexemes, ds, m, n, c);
    }
  }

  lemma KeptPrefix(ls: seq<Lexeme>, ls': seq<Lexeme>, n: nat, p: nat)
    requires Kept(ls, ls', n, p)
    ensures n <= |ls| && n <= |ls'| && ls'[..n] == ls[..n]
  {
  }

  lemma UnswallowedTo(ls: seq<Lexeme>, ds: seq<Define>, values: map<string, string>, m: nat, n: nat)
    requires AllWithin(ls, ds) && m <= n && Unswallowed(ls, ds, values, 0, n)
    ensures Unswallowed(ls, ds, values, 0, m)
  {
  }

  lemma CallsAscend(ls: seq<Lexeme>, ds: seq<Define>, m: nat, n: nat)
    requires Walk(ls, 0) == Ok(ds) && m <= n < |ds|
    ensures ds[n].first <= |ls| && (m < n ==> ds[m].first < ds[n].first) && forall i :: m <= i < n ==> ds[i].first < ds[i].last <= ds[n].first
    ensures m > 0 ==> ds[0].first <= ds[m - 1].last
  {
    hide Walk;
    WalkWithin(ls, 0);
  }
}
