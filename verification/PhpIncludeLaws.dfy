/** What patchPHPInclude leaves behind: one managed block at the end of the last
    PHP section, and the application's own code. */
module PhpIncludeLaws {
  import opened Text
  import opened PhpLexer
  import opened PhpTokens
  import opened PhpSplice
  import opened PhpEntries
  import opened PhpArrayPatch
  import opened PhpIncludeBlock
  import opened PhpInclude

  /** The pieces other than blanks. */
  function Solid(ps: seq<Piece>): seq<Piece> {
    if ps == [] then [] else (if ps[0].kind == Blank then [] else [ps[0]]) + Solid(ps[1..])
  }

  function Outside(ps: seq<Piece>, m: Markers): seq<Piece>
    requires m.Marked? ==> m.a <= m.b < |ps|
  {
    match m
    case NoMarkers => ps
    case Marked(a, b) => ps[..a] + ps[b + 1..]
  }

  /** Only spaces stand between the block and the end of the last PHP section. */
  predicate AtEnd(ps: seq<Piece>, b: nat)
    requires b < |ps|
  {
    b < SectionEnd(ps) && AllSpace(Flatten(ps[b + 1..SectionEnd(ps)]))
  }

  /** The source has exactly one managed block, at the end of the last section. */
  predicate Managed(src: string, marker: string) {
    && Parse(src).Ok?
    && var ps := AllPieces(Parse(src).value);
      match FindMarkers(ps, marker)
      case Ok(Marked(a, b)) => AtEnd(ps, b)
      case _ => false
  }

  /** The text of the managed block. */
  function BlockOf(src: string, marker: string): string
    requires Managed(src, marker)
  {
    var ps := AllPieces(Parse(src).value);
    var m := FindMarkers(ps, marker).value;
    Flatten(ps[m.a..m.b + 1])
  }

  /** The application's tokens, comments and HTML. */
  function Application(src: string, marker: string): Result<seq<Piece>, PhpError> {
    match Parse(src)
    case Err(e) => Err(e)
    case Ok(d) =>
      match FindMarkers(AllPieces(d), marker)
      case Err(e) => Err(e)
      case Ok(m) => Ok(Solid(Outside(AllPieces(d), m)))
  }

  /** Without the block the brackets are balanced; and unless the block is at the
      end already, the code behind it may follow the code before it. */
  predicate Movable(ps: seq<Piece>, m: Markers)
    requires m.Marked? ==> m.a <= m.b < |ps|
  {
    Balanced(Bare(Outside(ps, m))) && Placed(ps, m)
  }

  predicate Placed(ps: seq<Piece>, m: Markers)
    requires m.Marked? ==> m.a <= m.b < |ps|
  {
    m.Marked? ==> AtEnd(ps, m.b) || Follows(ps[..m.a], Remains(ps, m.b))
  }

  /** What stands behind the block and its line break. */
  function Remains(ps: seq<Piece>, b: nat): string
    requires b < |ps|
  {
    var r := Flatten(ps[b + 1..]);
    r[PastBreak(r, 0, EOL(Flatten(ps)))..]
  }

  /** The block stands behind a blank or the opening tag. */
  predicate Detached(ps: seq<Piece>, a: nat)
    requires a <= |ps|
  {
    a > 0 && (ps[a - 1].kind == Blank || ps[a - 1].kind == Open)
  }

  lemma {:induction false} SolidConcat(a: seq<Piece>, b: seq<Piece>)
    ensures Solid(a + b) == Solid(a) + Solid(b)
  {
    if a == [] {
      assert a + b == b;
    } else {
      assert (a + b)[1..] == a[1..] + b;
      SolidConcat(a[1..], b);
    }
  }

  lemma {:induction false} SolidBlank(ps: seq<Piece>)
    requires forall i :: 0 <= i < |ps| ==> ps[i].kind == Blank
    ensures Solid(ps) == [] && Bare(ps) == []
  {
    if ps != [] { SolidBlank(ps[1..]); }
  }

  /** Blanks around an insertion make no difference. */
  lemma SolidAround(ps: seq<Piece>, t: nat, lead: string, eol: string)
    requires t <= |ps|
    ensures var x, y := ps[..t] + Blanks(lead), Blanks(eol) + ps[t..];
      Solid(x + y) == Solid(ps) && Bare(x + y) == Bare(ps)
  {
    hide Solid, Bare;
    assert ps == ps[..t] + ps[t..];
    var l, e := Blanks(lead), Blanks(eol);
    SolidBlank(l);
    SolidBlank(e);
    SolidConcat(ps[..t] + l, e + ps[t..]);
    SolidConcat(ps[..t], l);
    SolidConcat(e, ps[t..]);
    SolidConcat(ps[..t], ps[t..]);
    BareConcat(ps[..t] + l, e + ps[t..]);
    BareConcat(ps[..t], l);
    BareConcat(e, ps[t..]);
    BareConcat(ps[..t], ps[t..]);
  }

  // ----- what the run produces -----

  /** out scans to the block between x and y, where x and y hold the pieces of the
      application and the block is at the end of the last section. */
  ghost predicate Rewritten(out: string, x: seq<Piece>, block: seq<Piece>, y: seq<Piece>, app: seq<Piece>) {
    && Scan(out, false) == Ok(x + block + y) && ModeAfter(x, false) && x != []
    && Solid(x + y) == Solid(app) && Bare(x + y) == Bare(app)
    && |x + block| <= SectionEnd(x + block + y)
    && AllSpace(Flatten((x + block + y)[|x + block|..SectionEnd(x + block + y)]))
  }

  lemma {:induction false} FlattenBlanks(s: string)
    ensures Flatten(Blanks(s)) == s
  {
    if s != "" {
      assert Blanks(s)[1..] == Blanks(s[1..]);
      FlattenBlanks(s[1..]);
    }
  }

  lemma BlankSpace(s: string)
    requires AllBlank(s)
    ensures AllSpace(s)
  {
  }

  /** Adding the block at the end of a section. */
  lemma Added(src: string, ps: seq<Piece>, t: nat, included: string, marker: string, eol: string) returns (x: seq<Piece>, y: seq<Piece>)
    requires Scan(src, false) == Ok(ps) && t <= |ps| && ModeAfter(ps[..t], false) && ValidMarker(marker)
    requires t < |ps| ==> ps[t].kind == Close && forall i :: t < i < |ps| ==> !IsTag(ps[i])
    requires AllBlank(eol) && eol != "" && (eol[0] == '\n' || eol[0] == '\r')
    ensures Off(ps, t) <= |src|
    ensures Rewritten(AddBlock(src, Off(ps, t), IncludeBlock(included, marker, eol), eol), x, BlockPieces(included, marker, eol), y, ps)
    ensures x != [] && x[|x| - 1].kind == Blank && y == Blanks(eol) + ps[t..]
  {
    hide Scan, Flatten, BlockPieces, IncludeBlock, SectionEnd, ModeAfter, Solid, Bare, Lead;
    AddScan(src, ps, t, included, marker, eol);
    var lead := Lead(src, Off(ps, t), eol);
    var block, w := BlockPieces(included, marker, eol), ps[t..];
    x, y := ps[..t] + Blanks(lead), Blanks(eol) + w;
    SolidAround(ps, t, lead, eol);
    LastBefore(src, ps, t);
    var z := x + block + Blanks(eol);
    assert x + block + y == z + w;
    AddedMode(ps[..t], lead, included, marker, eol);
    assert w != [] ==> w[0] == ps[t] && forall i :: 0 < i < |w| ==> w[i] == ps[t + i];
    SectionOf(z, w);
    assert (z + w)[|x + block|..|z|] == Blanks(eol);
    FlattenBlanks(eol);
    BlankSpace(eol);
    if lead == "" { assert x == ps[..t]; }
  }

  lemma AddedMode(pre: seq<Piece>, lead: string, included: string, marker: string, eol: string)
    requires ModeAfter(pre, false) && AllBlank(lead) && AllBlank(eol) && ValidMarker(marker) && eol != "" && (eol[0] == '\n' || eol[0] == '\r')
    ensures ModeAfter(pre + Blanks(lead), false)
    ensures ModeAfter(pre + Blanks(lead) + BlockPieces(included, marker, eol) + Blanks(eol), false)
  {
    hide BlockPieces, IncludeBlock, Lexes, Flatten, ModeAfter;
    ModeConcat(pre, Blanks(lead), false);
    TriviaMode(Blanks(lead), true);
    ReadsBlock(included, marker, eol, "");
    ModeConcat(pre + Blanks(lead), BlockPieces(included, marker, eol), false);
    ModeConcat(pre + Blanks(lead) + BlockPieces(included, marker, eol), Blanks(eol), false);
    TriviaMode(Blanks(eol), true);
  }

  /** Rewriting a block that is at the end already. */
  lemma Kept(src: string, ps: seq<Piece>, a: nat, b: nat, included: string, marker: string, eol: string)
    requires Scan(src, false) == Ok(ps) && Bare(ps) != [] && ValidMarker(marker)
    requires a <= b < |ps| && ps[a] == Marker(StartMarker(marker)) && ps[b] == Marker(EndMarker(marker)) && AtEnd(ps, b)
    requires AllBlank(eol) && eol != "" && (eol[0] == '\n' || eol[0] == '\r')
    ensures Off(ps, a) <= Off(ps, b + 1) <= |src|
    ensures Rewritten(src[..Off(ps, a)] + IncludeBlock(included, marker, eol) + src[Off(ps, b + 1)..],
      ps[..a], BlockPieces(included, marker, eol), ps[b + 1..], Outside(ps, Marked(a, b)))
  {
    hide Scan, Flatten, BlockPieces, IncludeBlock, SectionEnd, ModeAfter, Solid, Bare, StartMarker, EndMarker, Off, AllSpace, Rewritten;
    ReplaceScan(src, ps, a, b, included, marker, eol);
    CommentMode(src, ps, a);
    CommentMode(src, ps, b);
    SectionMode(src, ps);
    var t := SectionEnd(ps);
    KeptMode(ps, a, b, t, included, marker, eol);
    TailParts(ps, b, t);
    KeptIs(src[..Off(ps, a)] + IncludeBlock(included, marker, eol) + src[Off(ps, b + 1)..], ps[..a], BlockPieces(included, marker, eol), ps[b + 1..t], ps[t..]);
  }

  lemma TailParts(ps: seq<Piece>, b: nat, t: nat)
    requires b < t <= |ps| && (t < |ps| ==> ps[t].kind == Close && forall i :: t < i < |ps| ==> !IsTag(ps[i]))
    ensures ps[b + 1..] == ps[b + 1..t] + ps[t..]
    ensures var w := ps[t..]; w != [] ==> w[0].kind == Close && forall i :: 0 < i < |w| ==> !IsTag(w[i])
  {
    assert forall i :: 0 <= i < |ps[t..]| ==> ps[t..][i] == ps[t + i];
  }

  lemma KeptIs(out: string, x: seq<Piece>, block: seq<Piece>, gap: seq<Piece>, w: seq<Piece>)
    requires Scan(out, false) == Ok(x + block + (gap + w)) && ModeAfter(x, false) && ModeAfter(x + block + gap, false)
    requires AllSpace(Flatten(gap)) && (w != [] ==> w[0].kind == Close && forall i :: 0 < i < |w| ==> !IsTag(w[i]))
    ensures Rewritten(out, x, block, gap + w, x + (gap + w))
  {
    hide Scan, Flatten, SectionEnd, ModeAfter, Solid, Bare;
    var z := x + block + gap;
    assert x + block + (gap + w) == z + w;
    SectionOf(z, w);
    assert (z + w)[|x + block|..|z|] == gap;
    NonEmptyMode(x);
  }

  lemma NonEmptyMode(x: seq<Piece>)
    requires ModeAfter(x, false)
    ensures x != []
  {
  }

  lemma KeptMode(ps: seq<Piece>, a: nat, b: nat, t: nat, included: string, marker: string, eol: string)
    requires a <= b < t <= |ps| && ModeAfter(ps[..a], false) && ModeAfter(ps[..b + 1], false) && ModeAfter(ps[..t], false)
    requires ValidMarker(marker) && AllBlank(eol) && eol != "" && (eol[0] == '\n' || eol[0] == '\r')
    ensures ModeAfter(ps[..a] + BlockPieces(included, marker, eol) + ps[b + 1..t], false)
  {
    hide BlockPieces, IncludeBlock, Lexes, Flatten, ModeAfter;
    ReadsBlock(included, marker, eol, "");
    assert ps[..t] == ps[..b + 1] + ps[b + 1..t];
    ModeConcat(ps[..b + 1], ps[b + 1..t], false);
    ModeConcat(ps[..a], BlockPieces(included, marker, eol), false);
    ModeConcat(ps[..a] + BlockPieces(included, marker, eol), ps[b + 1..t], false);
  }

  /** The line break behind the block is made of blanks. */
  lemma BehindPieces(src: string, ps: seq<Piece>, b: nat, eol: string) returns (e: nat)
    requires Scan(src, false) == Ok(ps) && b < |ps| && ps[b].kind == Comment && (eol == "\n" || eol == "\r\n")
    ensures Off(ps, b + 1) <= |src| && b < e <= |ps| && Off(ps, e) == PastBreak(src, Off(ps, b + 1), eol)
    ensures forall i :: b < i < e ==> ps[i].kind == Blank
    ensures ModeAfter(ps[..e], false)
  {
    hide Scan, Flatten, Lex, ModeAfter;
    SplitScan(src, ps, b + 1);
    CommentMode(src, ps, b);
    e := b + 1;
    if eol <= src[Off(ps, b + 1)..] {
      BlankNext(src, ps, e);
      e := e + 1;
      if eol == "\r\n" {
        assert src[Off(ps, b + 1)..][1] == '\n';
        BlankNext(src, ps, e);
        e := e + 1;
      }
    }
  }

  lemma BlankNext(src: string, ps: seq<Piece>, k: nat)
    requires Scan(src, false) == Ok(ps) && k <= |ps| && ModeAfter(ps[..k], false)
    requires Off(ps, k) < |src| && (src[Off(ps, k)] == '\n' || src[Off(ps, k)] == '\r')
    ensures k < |ps| && ps[k].kind == Blank && Off(ps, k + 1) == Off(ps, k) + 1 && ModeAfter(ps[..k + 1], false)
  {
    hide Scan, Flatten, ModeAfter;
    SplitScan(src, ps, k);
    var r := Flatten(ps[k..]);
    assert r[0] == src[Off(ps, k)];
    EmptyFlat(ps, k);
    LexedAt(src, ps, k);
    assert Lex(r, true) == Ok(Piece(Blank, r[..1]));
    assert ps[..k + 1] == ps[..k] + [ps[k]];
    FlattenConcat(ps[..k], [ps[k]]);
    FlattenOne(ps[k]);
    ModeConcat(ps[..k], [ps[k]], false);
    ModeOne(ps[k], true);
  }

  lemma EmptyFlat(ps: seq<Piece>, k: nat)
    requires k <= |ps| && Flatten(ps[k..]) != ""
    ensures k < |ps|
  {
  }

  /** Moving the block to the end. */
  lemma Moved(src: string, ps: seq<Piece>, a: nat, b: nat, included: string, marker: string, eol: string) returns (x: seq<Piece>, y: seq<Piece>)
    requires Scan(src, false) == Ok(ps) && Bare(ps) != [] && ValidMarker(marker) && (eol == "\n" || eol == "\r\n")
    requires a <= b < |ps| && ps[a] == Marker(StartMarker(marker)) && ps[b] == Marker(EndMarker(marker))
    requires b < SectionEnd(ps) && Off(ps, a) <= Off(ps, b + 1) <= Off(ps, SectionEnd(ps)) <= |src|
    requires PastBreak(src, Off(ps, b + 1), eol) <= Off(ps, SectionEnd(ps)) && Follows(ps[..a], src[PastBreak(src, Off(ps, b + 1), eol)..])
    ensures var e := PastBreak(src, Off(ps, b + 1), eol);
      Rewritten(AddBlock(src[..Off(ps, a)] + src[e..], Off(ps, SectionEnd(ps)) - (e - Off(ps, a)), IncludeBlock(included, marker, eol), eol),
        x, BlockPieces(included, marker, eol), y, Outside(ps, Marked(a, b)))
    ensures x != [] && x[|x| - 1].kind == Blank && y == Blanks(eol) + ps[SectionEnd(ps)..]
  {
    hide Scan, Flatten, BlockPieces, IncludeBlock, SectionEnd, ModeAfter, Solid, Bare, StartMarker, EndMarker, AddBlock, Rewritten, Off, Outside, PastBreak, Follows;
    CommentMode(src, ps, a);
    SectionMode(src, ps);
    var t := SectionEnd(ps);
    var e := BehindPieces(src, ps, b, eol);
    BehindEnd(src, ps, b, e, t);
    TextBehind(src, ps, e);
    RemoveScan(src, ps, a, e);
    var src1, ps1 := src[..Off(ps, a)] + src[Off(ps, e)..], ps[..a] + ps[e..];
    var t1 := t - (e - a);
    CutSection(ps, a, e, t);
    x, y := Added(src1, ps1, t1, included, marker, eol);
    OutsideBlanks(ps, a, b, e);
    RewrittenFor(AddBlock(src1, Off(ps1, t1), IncludeBlock(included, marker, eol), eol), x, BlockPieces(included, marker, eol), y, ps1, Outside(ps, Marked(a, b)));
  }

  /** The end of the last section, after pieces before it were cut out. */
  lemma CutSection(ps: seq<Piece>, a: nat, e: nat, t: nat)
    requires a <= e <= t <= |ps| && ModeAfter(ps[..a], false) && ModeAfter(ps[..e], false) && ModeAfter(ps[..t], false)
    requires t < |ps| ==> ps[t].kind == Close && forall i :: t < i < |ps| ==> !IsTag(ps[i])
    ensures
      var ps1, t1 := ps[..a] + ps[e..], t - (e - a);
      && t1 <= |ps1| && ModeAfter(ps1[..t1], false) && ps1[t1..] == ps[t..]
      && (t1 < |ps1| ==> ps1[t1].kind == Close && forall i :: t1 < i < |ps1| ==> !IsTag(ps1[i]))
      && Off(ps1, t1) == Off(ps, t) - (Off(ps, e) - Off(ps, a))
  {
    hide Flatten, ModeAfter, IsTag;
    var ps1, t1 := ps[..a] + ps[e..], t - (e - a);
    CutSlices(ps, a, e, t);
    ModeConcat(ps[..e], ps[e..t], false);
    ModeConcat(ps[..a], ps[e..t], false);
    FlattenConcat(ps[..a], ps[e..t]);
    FlattenConcat(ps[..e], ps[e..t]);
    assert forall i :: t1 <= i < |ps1| ==> ps1[i] == ps[i + (e - a)];
  }

  lemma TextBehind(src: string, ps: seq<Piece>, e: nat)
    requires Scan(src, false) == Ok(ps) && e <= |ps|
    ensures Off(ps, e) <= |src| && src[Off(ps, e)..] == Flatten(ps[e..])
  {
    hide Scan, Flatten;
    SplitScan(src, ps, e);
  }

  lemma CutSlices<T>(s: seq<T>, a: nat, e: nat, t: nat)
    requires a <= e <= t <= |s|
    ensures (s[..a] + s[e..])[..t - (e - a)] == s[..a] + s[e..t] && (s[..a] + s[e..])[t - (e - a)..] == s[t..] && s[..t] == s[..e] + s[e..t]
  {
  }

  lemma BehindEnd(src: string, ps: seq<Piece>, b: nat, e: nat, t: nat)
    requires Scan(src, false) == Ok(ps) && b < e <= |ps| && b < t <= |ps| && Off(ps, e) <= Off(ps, t)
    ensures e <= t
  {
    hide Scan, Flatten, Lex, ModeAfter;
    if t < e {
      OffMonotone(ps, t, e);
      LexedAt(src, ps, t);
      OffMonotone(ps, t, t + 1);
      OffMonotone(ps, t + 1, e);
      assert ps[t..t + 1] == [ps[t]];
      FlattenOne(ps[t]);
    }
  }

  lemma OutsideBlanks(ps: seq<Piece>, a: nat, b: nat, e: nat)
    requires a <= b < e <= |ps| && forall i :: b < i < e ==> ps[i].kind == Blank
    ensures Solid(ps[..a] + ps[e..]) == Solid(Outside(ps, Marked(a, b))) && Bare(ps[..a] + ps[e..]) == Bare(Outside(ps, Marked(a, b)))
  {
    hide Solid, Bare;
    assert ps[b + 1..] == ps[b + 1..e] + ps[e..];
    SolidBlank(ps[b + 1..e]);
    SolidConcat(ps[b + 1..e], ps[e..]);
    SolidConcat(ps[..a], ps[e..]);
    SolidConcat(ps[..a], ps[b + 1..]);
    BareConcat(ps[b + 1..e], ps[e..]);
    BareConcat(ps[..a], ps[e..]);
    BareConcat(ps[..a], ps[b + 1..]);
  }

  lemma RewrittenFor(out: string, x: seq<Piece>, block: seq<Piece>, y: seq<Piece>, app: seq<Piece>, app': seq<Piece>)
    requires Rewritten(out, x, block, y, app) && Solid(app) == Solid(app') && Bare(app) == Bare(app')
    ensures Rewritten(out, x, block, y, app')
  {
  }
}
