/** patchPHPConstants on source text. */
module PhpConstantPatch {
  import opened Text
  import opened PhpLexer
  import S = Sequences
  import opened PhpTokens
  import opened PhpSplice
  import opened PhpScalars
  import opened PhpEntries
  import opened PhpArrayPatch
  import opened PhpArrayLens
  import opened PhpDefines
  import opened PhpConstants
  import opened PhpConstantText
  import E = PhpEdits
  import O = PhpOutline

  /** The replacement of the value of a call. */
  function ValueEdit(ls: seq<Lexeme>, d: Define, v: string): E.Edit
    requires Within(ls, d)
  {
    E.Edit(Start(ls, d.first), End(ls, d.last - 1), v)
  }

  /** The edits of the managed calls among the first k. */
  function Edits(ls: seq<Lexeme>, ds: seq<Define>, values: map<string, string>, k: nat): seq<E.Edit>
    requires AllWithin(ls, ds) && k <= |ds|
  {
    if k == 0 then []
    else Edits(ls, ds, values, k - 1) + if ds[k - 1].key in values then [ValueEdit(ls, ds[k - 1], values[ds[k - 1].key])] else []
  }

  /** A managed key that two calls define. */
  predicate Duplicated(ds: seq<Define>, values: map<string, string>) {
    exists i, j :: 0 <= i < j < |ds| && ds[i].key == ds[j].key && ds[i].key in values
  }

  function Keys(ds: seq<Define>): set<string> {
    set i | 0 <= i < |ds| :: ds[i].key
  }

  /** The keys of the order that no call defines. */
  function MissingKeys(order: seq<string>, written: set<string>): (r: seq<string>)
    ensures forall k :: k in r <==> k in order && k !in written
  {
    if order == [] then []
    else (if order[0] in written then [] else [order[0]]) + MissingKeys(order[1..], written)
  }

  /** Where new calls go. */
  function InsertPosition(src: string, ls: seq<Lexeme>, anchor: string): (pos: nat)
    requires forall i :: 0 <= i < |ls| ==> Start(ls, i) <= |src|
    ensures pos <= |src|
  {
    var c := InsertToken(ls, anchor);
    LinePosition(src, if c < |ls| then Start(ls, c) else |src|)
  }

  function Block(src: string, pos: nat, missing: seq<string>, values: map<string, string>): string
    requires pos <= |src| && forall k :: k in missing ==> k in values
  {
    var eol := EOL(src);
    (if pos > 0 && src[pos - 1] != '\n' then eol else "") + (Join(CallLines(missing, values), eol) + eol)
  }

  /** patchPHPConstants.  The order names managed keys only. */
  function PatchConstants(src: string, values: map<string, string>, order: seq<string>, anchor: string): Result<string, PhpError>
    requires forall k :: k in order ==> k in values
  {
    match Parse(src)
    case Err(e) => Err(e)
    case Ok(d) =>
      match Walk(d.lexemes, 0)
      case Err(e) => Err(e)
      case Ok(ds) =>
        if Duplicated(ds, values) then Err(DuplicateConstant)
        else
          WalkWithin(d.lexemes, 0);
          StartsWithin(src, d);
          var missing := MissingKeys(order, Keys(ds));
          var pos := InsertPosition(src, d.lexemes, anchor);
          E.ApplyEdits(src, Edits(d.lexemes, ds, values, |ds|) +
            if missing == [] then [] else [E.Edit(pos, pos, Block(src, pos, missing, values))])
  }

  lemma StartsWithin(src: string, d: Doc)
    requires Parse(src) == Ok(d)
    ensures forall i :: 0 <= i < |d.lexemes| ==> Start(d.lexemes, i) < End(d.lexemes, i) <= |src|
  {
    hide Parse, Start, End, Pieces, Flatten;
    forall i | 0 <= i < |d.lexemes|
      ensures Start(d.lexemes, i) < End(d.lexemes, i) <= |src|
    {
      Offsets(src, d, i);
      ModeAt(src, d, i);
    }
  }

  // ----- edits in falling order -----

  /** The edits of the calls from lo to k, last one first. */
  function Down(ls: seq<Lexeme>, ds: seq<Define>, values: map<string, string>, lo: nat, k: nat): seq<E.Edit>
    requires AllWithin(ls, ds) && lo <= k <= |ds|
    decreases k
  {
    if k == lo then []
    else (if ds[k - 1].key in values then [ValueEdit(ls, ds[k - 1], values[ds[k - 1].key])] else []) + Down(ls, ds, values, lo, k - 1)
  }

  lemma {:induction false} DownEdits(ls: seq<Lexeme>, ds: seq<Define>, values: map<string, string>, k: nat)
    requires AllWithin(ls, ds) && k <= |ds|
    ensures E.Reverse(Edits(ls, ds, values, k)) == Down(ls, ds, values, 0, k)
  {
    if k > 0 {
      DownEdits(ls, ds, values, k - 1);
      var last := if ds[k - 1].key in values then [ValueEdit(ls, ds[k - 1], values[ds[k - 1].key])] else [];
      E.ReverseConcat(Edits(ls, ds, values, k - 1), last);
      assert E.Reverse(last) == last by { if last != [] { assert last[1..] == []; } }
    }
  }

  lemma {:induction false} DownSplit(ls: seq<Lexeme>, ds: seq<Define>, values: map<string, string>, lo: nat, m: nat, k: nat)
    requires AllWithin(ls, ds) && lo <= m <= k <= |ds|
    ensures Down(ls, ds, values, lo, k) == Down(ls, ds, values, m, k) + Down(ls, ds, values, lo, m)
    decreases k
  {
    hide ValueEdit;
    if k > m {
      DownSplit(ls, ds, values, lo, m, k - 1);
      var head := if ds[k - 1].key in values then [ValueEdit(ls, ds[k - 1], values[ds[k - 1].key])] else [];
      S.Assoc(head, Down(ls, ds, values, m, k - 1), Down(ls, ds, values, lo, m));
    } else {
      assert [] + Down(ls, ds, values, lo, m) == Down(ls, ds, values, lo, m);
    }
  }

  /** The edits of calls in a common prefix are the same. */
  lemma {:induction false} DownPrefix(ls: seq<Lexeme>, ds: seq<Define>, ls': seq<Lexeme>, ds': seq<Define>, values: map<string, string>, lo: nat, k: nat, n: nat)
    requires AllWithin(ls, ds) && AllWithin(ls', ds') && lo <= k <= |ds| && k <= |ds'| && ds[..k] == ds'[..k]
    requires n <= |ls| && n <= |ls'| && ls[..n] == ls'[..n]
    requires forall i :: lo <= i < k ==> ds[i].last <= n
    ensures Down(ls, ds, values, lo, k) == Down(ls', ds', values, lo, k)
    decreases k
  {
    hide Start, End;
    if k > lo {
      assert ds[k - 1] == ds[..k][k - 1] == ds'[..k][k - 1] == ds'[k - 1];
      assert ds[..k - 1] == ds[..k][..k - 1] == ds'[..k][..k - 1] == ds'[..k - 1];
      DownPrefix(ls, ds, ls', ds', values, lo, k - 1, n);
      StartPrefix(ls, ls', ds[k - 1].first, n);
      StartPrefix(ls, ls', ds[k - 1].last - 1, n);
    }
  }

  lemma StartPrefix(ls: seq<Lexeme>, ls': seq<Lexeme>, i: nat, n: nat)
    requires i < n <= |ls| && n <= |ls'| && ls[..n] == ls'[..n]
    ensures Start(ls, i) == Start(ls', i) && End(ls, i) == End(ls', i) && ls[i] == ls'[i]
  {
    hide Flatten, Pieces;
    assert ls[..i] == ls[..n][..i] == ls'[..n][..i] == ls'[..i];
    assert ls[..i + 1] == ls[..n][..i + 1] == ls'[..n][..i + 1] == ls'[..i + 1];
    assert ls[i] == ls[..n][i] == ls'[..n][i] == ls'[i];
  }

  lemma StartMonotone(src: string, d: Doc, i: nat, j: nat)
    requires Parse(src) == Ok(d) && i <= j < |d.lexemes|
    ensures Start(d.lexemes, i) <= Start(d.lexemes, j) && End(d.lexemes, i) <= End(d.lexemes, j)
    ensures i < j ==> End(d.lexemes, i) <= Start(d.lexemes, j)
  {
    hide Parse, Pieces, Flatten;
    var ls := d.lexemes;
    if i < j {
      assert ls[..j] == ls[..i + 1] + ls[i + 1..j];
      PiecesConcat(ls[..i + 1], ls[i + 1..j]);
      FlattenConcat(Pieces(ls[..i + 1]), Pieces(ls[i + 1..j]));
      FlattenConcat(Pieces(ls[..j]), ls[j].gap);
      Offsets(src, d, i);
      Offsets(src, d, j);
    }
  }

  /** Replacing one value. */
  lemma OneEdit(src: string, d: Doc, ds: seq<Define>, k: nat, v: string)
    requires Parse(src) == Ok(d) && Walk(d.lexemes, 0) == Ok(ds) && k < |ds| && IsLiteral(v)
    requires Within(d.lexemes, ds[k]) && !Swallowed(d.lexemes[ds[k].first])
    ensures var ls, c := d.lexemes, ds[k];
      && Start(ls, c.first) <= End(ls, c.last - 1) <= |src| && LiteralPieces(v) != []
      && var x := ValueLexemes(ls[c.first].gap, LiteralPieces(v));
      var ls' := ls[..c.first] + x + ls[c.last..];
      && Parse(src[..Start(ls, c.first)] + v + src[End(ls, c.last - 1)..]) == Ok(Doc(ls', d.tail))
      && Walk(ls', 0).Ok? && ValueText(x) == v && AllWithin(ls, ds)
      && var ds' := Walk(ls', 0).value;
      && |ds'| == |ds| && ds'[..k] == ds[..k] && AllWithin(ls', ds')
      && Entries(ls', ds') == Entries(ls, ds)[k := Entry(c.key, x)]
  {
    hide Parse, Walk, IsLiteral, LiteralPieces, Start, End, Swallowed, IsDefine, CallAt, Neutral, Balanced, ValueLexemes, ValueText, Passes, WalkTo;
    var ls, c := d.lexemes, ds[k];
    WalkWithin(ls, 0);
    WalkReaches(ls, 0, k);
    CallTokens(ls, c.at);
    NeutralBalanced(ls[c.first..c.last]);
    AfterComma(src, d, c.first);
    ReplaceValue(src, d, c.first, c.last, v);
    LiteralPiecesNonempty(v);
    ValueNeutralTokens(ls[c.first].gap, v);
    SetValue(ls, k, ValueLexemes(ls[c.first].gap, LiteralPieces(v)));
    LiteralText(ls[c.first].gap, v);
  }

  lemma AfterComma(src: string, d: Doc, i: nat)
    requires Parse(src) == Ok(d) && 0 < i < |d.lexemes| && d.lexemes[i - 1].Txt() == ","
    ensures d.lexemes[i].token.kind != Open
  {
    hide Parse, Pieces, ModeAfter;
    ModeAt(src, d, i - 1);
    ModeAt(src, d, i);
  }

  lemma ValueNeutralTokens(gap: seq<Piece>, v: string)
    requires IsLiteral(v)
    ensures Neutral(ValueLexemes(gap, LiteralPieces(v)))
  {
    hide IsLiteral, LiteralPieces, Neutral;
    LiteralPiecesNonempty(v);
    PlainNeutral(ValueLexemes(gap, LiteralPieces(v)));
  }

  /** An entry with its new value, if the key is managed. */
  predicate Settled(e: Entry, e': Entry, values: map<string, string>) {
    if e.key in values then e'.key == e.key && e'.value != [] && ValueText(e'.value) == values[e.key] else e' == e
  }

  /** The entries from lo to k carry their new values, the others are the same. */
  predicate SettledIn(es: seq<Entry>, es': seq<Entry>, values: map<string, string>, lo: nat, k: nat) {
    && |es'| == |es|
    && forall i :: 0 <= i < |es| ==> if lo <= i < k then Settled(es[i], es'[i], values) else es'[i] == es[i]
  }

  /** No managed value starts with a `?>` that ends a line comment. */
  predicate Unswallowed(ls: seq<Lexeme>, ds: seq<Define>, values: map<string, string>, lo: nat, k: nat)
    requires AllWithin(ls, ds)
  {
    forall i :: lo <= i < k && i < |ds| && ds[i].key in values ==> !Swallowed(ls[ds[i].first])
  }

  /** Only the tokens from n to p are other ones. */
  predicate Kept(ls: seq<Lexeme>, ls': seq<Lexeme>, n: nat, p: nat) {
    && n <= p <= |ls| && n <= |ls'| - (|ls| - p)
    && ls'[..n] == ls[..n] && ls'[|ls'| - (|ls| - p)..] == ls[p..]
  }

  lemma KeptTrans(ls: seq<Lexeme>, ls1: seq<Lexeme>, ls': seq<Lexeme>, n: nat, p: nat, n1: nat, p1: nat)
    requires Kept(ls, ls1, n, p) && Kept(ls1, ls', n1, p1) && n1 <= n && p1 <= |ls1| - (|ls| - p)
    ensures Kept(ls, ls', n1, p)
  {
  }

  lemma KeptWider(ls: seq<Lexeme>, ls': seq<Lexeme>, n: nat, p: nat, n1: nat, p1: nat)
    requires Kept(ls, ls', n, p) && n1 <= n && p <= p1 <= |ls|
    ensures Kept(ls, ls', n1, p1)
  {
  }

  lemma KeptSame(ls: seq<Lexeme>, n: nat, p: nat)
    requires n <= p <= |ls|
    ensures Kept(ls, ls, n, p)
  {
  }

  /** Applying the edits of some calls, from right to left. */
  lemma {:induction false} EditsDown(src: string, d: Doc, ds: seq<Define>, values: map<string, string>, lo: nat, k: nat, previous: nat)
      returns (src': string, d': Doc, ds': seq<Define>)
    requires Parse(src) == Ok(d) && Walk(d.lexemes, 0) == Ok(ds) && AllWithin(d.lexemes, ds) && Literals(values)
    requires lo <= k <= |ds| && previous <= |src| && Unswallowed(d.lexemes, ds, values, lo, k)
    requires forall i :: lo <= i < k ==> End(d.lexemes, ds[i].last - 1) <= previous
    ensures E.ApplySorted(src, previous, Down(d.lexemes, ds, values, lo, k)) == Ok(src')
    ensures Parse(src') == Ok(d') && Walk(d'.lexemes, 0) == Ok(ds') && AllWithin(d'.lexemes, ds')
    ensures SettledIn(Entries(d.lexemes, ds), Entries(d'.lexemes, ds'), values, lo, k)
    ensures d'.tail == d.tail && |ds'| == |ds| && ds'[..lo] == ds[..lo] && (lo == k ==> d' == d)
    ensures O.Outline(d'.lexemes) == O.Outline(d.lexemes)
    ensures lo < k ==> Kept(d.lexemes, d'.lexemes, ds[lo].first, ds[k - 1].last)
    decreases k
  {
    hide Kept, Parse, Walk, Start, End, Swallowed, ValueText, IsLiteral, LiteralPieces, ValueLexemes, Literals, SettledIn, Entries, E.ApplySorted, Down, O.Outline;
    var ls := d.lexemes;
    if k == lo {
      src', d', ds' := src, d, ds;
      NoEdits(src, previous, ls, ds, values, lo);
    } else if ds[k - 1].key !in values {
      src', d', ds' := EditsDown(src, d, ds, values, lo, k - 1, previous);
      SkipEdit(ls, ds, values, lo, k, Entries(d'.lexemes, ds'));
      SkipKept(ls, d'.lexemes, ds, lo, k);
    } else {
      src', d', ds' := EditsDownStep(src, d, ds, values, lo, k, previous);
    }
  }

  lemma NoEdits(src: string, previous: nat, ls: seq<Lexeme>, ds: seq<Define>, values: map<string, string>, lo: nat)
    requires AllWithin(ls, ds) && lo <= |ds| && previous <= |src|
    ensures E.ApplySorted(src, previous, Down(ls, ds, values, lo, lo)) == Ok(src)
    ensures SettledIn(Entries(ls, ds), Entries(ls, ds), values, lo, lo)
  {
  }

  lemma SkipEdit(ls: seq<Lexeme>, ds: seq<Define>, values: map<string, string>, lo: nat, k: nat, es': seq<Entry>)
    requires AllWithin(ls, ds) && lo < k <= |ds| && ds[k - 1].key !in values && SettledIn(Entries(ls, ds), es', values, lo, k - 1)
    ensures SettledIn(Entries(ls, ds), es', values, lo, k)
    ensures Down(ls, ds, values, lo, k) == Down(ls, ds, values, lo, k - 1)
  {
  }

  lemma {:induction false} EditsDownStep(src: string, d: Doc, ds: seq<Define>, values: map<string, string>, lo: nat, k: nat, previous: nat)
      returns (src': string, d': Doc, ds': seq<Define>)
    requires Parse(src) == Ok(d) && Walk(d.lexemes, 0) == Ok(ds) && AllWithin(d.lexemes, ds) && Literals(values)
    requires lo < k <= |ds| && previous <= |src| && Unswallowed(d.lexemes, ds, values, lo, k) && ds[k - 1].key in values
    requires forall i :: lo <= i < k ==> End(d.lexemes, ds[i].last - 1) <= previous
    ensures E.ApplySorted(src, previous, Down(d.lexemes, ds, values, lo, k)) == Ok(src')
    ensures Parse(src') == Ok(d') && Walk(d'.lexemes, 0) == Ok(ds') && AllWithin(d'.lexemes, ds')
    ensures SettledIn(Entries(d.lexemes, ds), Entries(d'.lexemes, ds'), values, lo, k)
    ensures d'.tail == d.tail && |ds'| == |ds| && ds'[..lo] == ds[..lo]
    ensures O.Outline(d'.lexemes) == O.Outline(d.lexemes)
    ensures Kept(d.lexemes, d'.lexemes, ds[lo].first, ds[k - 1].last)
    decreases k, 0
  {
    hide Kept, Parse, Walk, Start, End, Swallowed, ValueText, IsLiteral, LiteralPieces, ValueLexemes, Down, SettledIn, Entries, E.ApplySorted, Unswallowed, O.Outline;
    var ls, c := d.lexemes, ds[k - 1];
    var src1, d1, ds1, x := EditsDownOne(src, d, ds, values, lo, k, previous);
    src', d', ds' := EditsDown(src1, d1, ds1, values, lo, k - 1, Start(ls, c.first));
    StepSettled(Entries(ls, ds), Entries(d1.lexemes, ds1), Entries(d'.lexemes, ds'), values, lo, k, x);
    StepStarts(ds, ds1, ds', lo, k);
    StepFrame(ls, ds, d1.lexemes, ds1, d'.lexemes, lo, k, x);
  }

  /** The last of the edits. */
  lemma EditsDownOne(src: string, d: Doc, ds: seq<Define>, values: map<string, string>, lo: nat, k: nat, previous: nat)
      returns (src1: string, d1: Doc, ds1: seq<Define>, x: seq<Lexeme>)
    requires Parse(src) == Ok(d) && Walk(d.lexemes, 0) == Ok(ds) && AllWithin(d.lexemes, ds) && Literals(values)
    requires lo < k <= |ds| && previous <= |src| && Unswallowed(d.lexemes, ds, values, lo, k) && ds[k - 1].key in values
    requires forall i :: lo <= i < k ==> End(d.lexemes, ds[i].last - 1) <= previous
    ensures Parse(src1) == Ok(d1) && Walk(d1.lexemes, 0) == Ok(ds1) && AllWithin(d1.lexemes, ds1) && d1.tail == d.tail
    ensures |ds1| == |ds| && ds1[..k - 1] == ds[..k - 1] && O.Outline(d1.lexemes) == O.Outline(d.lexemes)
    ensures var ls, c := d.lexemes, ds[k - 1];
      && x != [] && ValueText(x) == values[c.key] && Entries(d1.lexemes, ds1) == Entries(ls, ds)[k - 1 := Entry(c.key, x)]
      && d1.lexemes == ls[..c.first] + x + ls[c.last..] && lo <= k - 1 <= |ds1|
      && Start(ls, c.first) <= |src1| && Unswallowed(d1.lexemes, ds1, values, lo, k - 1)
      && (forall i :: lo <= i < k - 1 ==> End(d1.lexemes, ds1[i].last - 1) <= Start(ls, c.first))
      && E.ApplySorted(src, previous, Down(ls, ds, values, lo, k)) == E.ApplySorted(src1, Start(ls, c.first), Down(d1.lexemes, ds1, values, lo, k - 1))
      && forall i :: lo <= i < k - 1 ==> ds[i].last <= c.first
  {
    hide Parse, Walk, Start, End, Swallowed, ValueText, IsLiteral, LiteralPieces, ValueLexemes, Down, E.ApplySorted, Unswallowed, O.Outline, Neutral;
    var ls, c := d.lexemes, ds[k - 1];
    var v := values[c.key];
    WalkWithin(ls, 0);
    assert !Swallowed(ls[c.first]) && IsLiteral(v) by { NotSwallowedAt(ls, ds, values, lo, k); }
    OneEdit(src, d, ds, k - 1, v);
    x := ValueLexemes(ls[c.first].gap, LiteralPieces(v));
    ValueNeutralTokens(ls[c.first].gap, v);
    O.SetOutline(ls, k - 1, x);
    var ls1 := ls[..c.first] + x + ls[c.last..];
    d1, ds1 := Doc(ls1, d.tail), Walk(ls1, 0).value;
    src1 := src[..Start(ls, c.first)] + v + src[End(ls, c.last - 1)..];
    StepPrefix(src, d, ds, values, lo, k, ls1, ds1);
    DownStep(ls, ds, values, lo, k, src, previous);
  }

  lemma NotSwallowedAt(ls: seq<Lexeme>, ds: seq<Define>, values: map<string, string>, lo: nat, k: nat)
    requires AllWithin(ls, ds) && lo < k <= |ds| && Unswallowed(ls, ds, values, lo, k) && ds[k - 1].key in values && Literals(values)
    ensures !Swallowed(ls[ds[k - 1].first]) && IsLiteral(values[ds[k - 1].key])
  {
  }

  lemma StepStarts(ds: seq<Define>, ds1: seq<Define>, ds': seq<Define>, lo: nat, k: nat)
    requires lo < k <= |ds| == |ds1| == |ds'| && ds1[..k - 1] == ds[..k - 1] && ds'[..lo] == ds1[..lo]
    ensures ds'[..lo] == ds[..lo] && forall i :: 0 <= i < k - 1 ==> ds1[i] == ds[i]
  {
  }

  /** What the step does to the tokens before the first edit and behind the last. */
  lemma StepFrame(ls: seq<Lexeme>, ds: seq<Define>, ls1: seq<Lexeme>, ds1: seq<Define>, ls': seq<Lexeme>, lo: nat, k: nat, x: seq<Lexeme>)
    requires lo < k <= |ds| == |ds1| && Within(ls, ds[k - 1]) && ls1 == ls[..ds[k - 1].first] + x + ls[ds[k - 1].last..]
    requires forall i :: 0 <= i < k - 1 ==> ds1[i] == ds[i]
    requires forall i :: lo <= i < k - 1 ==> ds[i].first < ds[i].last <= ds[k - 1].first
    requires lo == k - 1 ==> ls' == ls1
    requires lo < k - 1 ==> Kept(ls1, ls', ds1[lo].first, ds1[k - 2].last)
    ensures Kept(ls, ls', ds[lo].first, ds[k - 1].last)
  {
  }

  lemma SkipKept(ls: seq<Lexeme>, ls': seq<Lexeme>, ds: seq<Define>, lo: nat, k: nat)
    requires Walk(ls, 0) == Ok(ds) && lo < k <= |ds|
    requires if lo < k - 1 then Kept(ls, ls', ds[lo].first, ds[k - 2].last) else ls' == ls
    ensures Kept(ls, ls', ds[lo].first, ds[k - 1].last)
  {
    hide Walk, Kept;
    WalkWithin(ls, 0);
    if lo < k - 1 { KeptWider(ls, ls', ds[lo].first, ds[k - 2].last, ds[lo].first, ds[k - 1].last); } else { KeptSame(ls, ds[lo].first, ds[k - 1].last); }
  }

  lemma StepSettled(es: seq<Entry>, es1: seq<Entry>, es': seq<Entry>, values: map<string, string>, lo: nat, k: nat, x: seq<Lexeme>)
    requires lo < k <= |es| && es[k - 1].key in values && x != [] && ValueText(x) == values[es[k - 1].key]
    requires es1 == es[k - 1 := Entry(es[k - 1].key, x)] && SettledIn(es1, es', values, lo, k - 1)
    ensures SettledIn(es, es', values, lo, k)
  {
  }

  lemma DownStep(ls: seq<Lexeme>, ds: seq<Define>, values: map<string, string>, lo: nat, k: nat, src: string, previous: nat)
    requires AllWithin(ls, ds) && lo < k <= |ds| && previous <= |src| && ds[k - 1].key in values
    requires Start(ls, ds[k - 1].first) <= End(ls, ds[k - 1].last - 1) <= previous
    ensures var c := ds[k - 1];
      var src1 := src[..Start(ls, c.first)] + values[c.key] + src[End(ls, c.last - 1)..];
      E.ApplySorted(src, previous, Down(ls, ds, values, lo, k)) == E.ApplySorted(src1, Start(ls, c.first), Down(ls, ds, values, lo, k - 1))
  {
  }

  /** Earlier calls are not touched by the replacement of a later value. */
  lemma PrefixAt<T>(a: seq<T>, b: seq<T>, n: nat, i: nat)
    requires i < n <= |a| && n <= |b| && a[..n] == b[..n]
    ensures a[i] == b[i]
  {
  }

  /** Calls come one after the other. */
  lemma BeforeCall(ls: seq<Lexeme>, ds: seq<Define>, i: nat, j: nat)
    requires Walk(ls, 0) == Ok(ds) && i < j < |ds|
    ensures ds[i].first < ds[i].last < ds[i].next <= ds[j].at < ds[j].first
  {
    hide Walk;
    WalkWithin(ls, 0);
  }

  lemma StepAt(src: string, d: Doc, ds: seq<Define>, k: nat, ls1: seq<Lexeme>, ds1: seq<Define>, i: nat)
    requires Parse(src) == Ok(d) && Walk(d.lexemes, 0) == Ok(ds) && AllWithin(d.lexemes, ds) && i < k - 1 < |ds|
    requires AllWithin(ls1, ds1) && |ds1| == |ds| && ds1[..k - 1] == ds[..k - 1]
    requires var n := ds[k - 1].first; n <= |ls1| && ls1[..n] == d.lexemes[..n]
    ensures End(ls1, ds1[i].last - 1) <= Start(d.lexemes, ds[k - 1].first)
    ensures ds1[i] == ds[i] && ls1[ds1[i].first] == d.lexemes[ds[i].first]
  {
    hide Parse, Walk, Start, End;
    var ls, n := d.lexemes, ds[k - 1].first;
    PrefixAt(ds1, ds, k - 1, i);
    BeforeCall(ls, ds, i, k - 1);
    CallPrefix(src, d, ds[i], n, ls1);
  }

  lemma StepPrefix(src: string, d: Doc, ds: seq<Define>, values: map<string, string>, lo: nat, k: nat, ls1: seq<Lexeme>, ds1: seq<Define>)
    requires Parse(src) == Ok(d) && Walk(d.lexemes, 0) == Ok(ds) && AllWithin(d.lexemes, ds)
    requires lo < k <= |ds| && Unswallowed(d.lexemes, ds, values, lo, k)
    requires AllWithin(ls1, ds1) && |ds1| == |ds| && ds1[..k - 1] == ds[..k - 1]
    requires var n := ds[k - 1].first; n <= |ls1| && ls1[..n] == d.lexemes[..n]
    ensures Down(ls1, ds1, values, lo, k - 1) == Down(d.lexemes, ds, values, lo, k - 1)
    ensures Unswallowed(ls1, ds1, values, lo, k - 1)
    ensures forall i :: lo <= i < k - 1 ==> End(ls1, ds1[i].last - 1) <= Start(d.lexemes, ds[k - 1].first)
  {
    hide Parse, Walk, Start, End, Swallowed, Down, Unswallowed;
    var ls, n := d.lexemes, ds[k - 1].first;
    WalkWithin(ls, 0);
    DownPrefix(ls1, ds1, ls, ds, values, lo, k - 1, n) by {
      assert forall i :: 0 <= i < k - 1 ==> ds1[i] == ds1[..k - 1][i] == ds[..k - 1][i] == ds[i];
      assert forall i :: 0 <= i < k - 1 ==> ds[i].last < ds[i].next <= ds[k - 1].at;
    }
    forall i | lo <= i < k - 1
      ensures End(ls1, ds1[i].last - 1) <= Start(ls, n)
      ensures ds1[i] == ds[i] && ls1[ds1[i].first] == ls[ds[i].first]
    {
      StepAt(src, d, ds, k, ls1, ds1, i);
    }
    UnswallowedStep(ls, ds, ls1, ds1, values, lo, k);
  }

  lemma UnswallowedStep(ls: seq<Lexeme>, ds: seq<Define>, ls1: seq<Lexeme>, ds1: seq<Define>, values: map<string, string>, lo: nat, k: nat)
    requires AllWithin(ls, ds) && AllWithin(ls1, ds1) && lo < k <= |ds| == |ds1| && Unswallowed(ls, ds, values, lo, k)
    requires forall i :: lo <= i < k - 1 ==> ds1[i] == ds[i] && ls1[ds1[i].first] == ls[ds[i].first]
    ensures Unswallowed(ls1, ds1, values, lo, k - 1)
  {
  }

  lemma CallPrefix(src: string, d: Doc, c: Define, n: nat, ls1: seq<Lexeme>)
    requires Parse(src) == Ok(d) && c.first < c.last < n < |d.lexemes| && n <= |ls1| && ls1[..n] == d.lexemes[..n]
    ensures End(ls1, c.last - 1) <= Start(d.lexemes, n) && ls1[c.first] == d.lexemes[c.first]
  {
    hide Parse, Start, End;
    StartPrefix(d.lexemes, ls1, c.last - 1, n);
    StartPrefix(d.lexemes, ls1, c.first, n);
    StartMonotone(src, d, c.last - 1, n);
  }
}
