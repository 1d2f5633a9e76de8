/** The laws of patchPHPInclude, over one run and over any number of runs between
    which the application appends code. */
module PhpIncludeRuns {
  import opened Text
  import opened PhpLexer
  import opened PhpTokens
  import opened PhpLiterals
  import opened PhpSplice
  import opened PhpEntries
  import opened PhpArrayPatch
  import opened PhpIncludeBlock
  import opened PhpInclude
  import opened PhpIncludeLaws

  // ----- markers -----

  lemma {:induction false} CountPieces(a: seq<Piece>, b: seq<Piece>, p: Piece)
    ensures CountPiece(a + b, p) == CountPiece(a, p) + CountPiece(b, p)
  {
    if a == [] {
      assert a + b == b;
    } else {
      assert (a + b)[1..] == a[1..] + b;
      CountPieces(a[1..], b, p);
    }
  }

  lemma {:induction false} CountSolid(ps: seq<Piece>, p: Piece)
    requires p.kind != Blank
    ensures CountPiece(ps, p) == CountPiece(Solid(ps), p)
  {
    if ps != [] {
      CountSolid(ps[1..], p);
      CountPieces(if ps[0].kind == Blank then [] else [ps[0]], Solid(ps[1..]), p);
    }
  }

  lemma {:induction false} FirstAt(ps: seq<Piece>, p: Piece)
    ensures FirstPiece(ps, p) == |ps| <==> CountPiece(ps, p) == 0
  {
    if ps != [] { FirstAt(ps[1..], p); }
  }

  lemma {:induction false} FirstBehind(x: seq<Piece>, p: Piece, y: seq<Piece>)
    requires CountPiece(x, p) == 0
    ensures FirstPiece(x + y, p) == |x| + FirstPiece(y, p)
  {
    if x == [] {
      assert x + y == y;
    } else {
      assert (x + y)[1..] == x[1..] + y;
      FirstBehind(x[1..], p, y);
    }
  }

  predicate Unmarked(ps: seq<Piece>, marker: string) {
    CountPiece(ps, Marker(StartMarker(marker))) == 0 && CountPiece(ps, Marker(EndMarker(marker))) == 0
  }

  lemma OneRemoved(ps: seq<Piece>, a: nat, b: nat, k: nat, p: Piece)
    requires a <= b < |ps| && a <= k <= b && ps[k] == p && CountPiece(ps, p) <= 1
    ensures CountPiece(ps[..a] + ps[b + 1..], p) == 0
  {
    hide CountPiece;
    assert ps == ps[..a] + (ps[a..k] + ([p] + (ps[k + 1..b + 1] + ps[b + 1..])));
    CountPieces(ps[..a], ps[a..k] + ([p] + (ps[k + 1..b + 1] + ps[b + 1..])), p);
    CountPieces(ps[a..k], [p] + (ps[k + 1..b + 1] + ps[b + 1..]), p);
    CountPieces([p], ps[k + 1..b + 1] + ps[b + 1..], p);
    CountPieces(ps[k + 1..b + 1], ps[b + 1..], p);
    CountPieces(ps[..a], ps[b + 1..], p);
    CountOne(p);
  }

  lemma CountOne(p: Piece)
    ensures CountPiece([p], p) == 1
  {
  }

  /** There is no marker outside the block. */
  lemma OutsideUnmarked(ps: seq<Piece>, marker: string)
    requires FindMarkers(ps, marker).Ok?
    ensures Unmarked(Outside(ps, FindMarkers(ps, marker).value), marker)
  {
    hide CountPiece, FirstPiece;
    var s, e := Marker(StartMarker(marker)), Marker(EndMarker(marker));
    match FindMarkers(ps, marker).value
    case NoMarkers =>
      FirstAt(ps, s);
      FirstAt(ps, e);
    case Marked(a, b) =>
      OneRemoved(ps, a, b, a, s);
      OneRemoved(ps, a, b, b, e);
  }

  lemma UnmarkedSolid(ps: seq<Piece>, qs: seq<Piece>, marker: string)
    requires Solid(ps) == Solid(qs) && Unmarked(qs, marker)
    ensures Unmarked(ps, marker)
  {
    hide CountPiece, Solid;
    CountSolid(ps, Marker(StartMarker(marker)));
    CountSolid(qs, Marker(StartMarker(marker)));
    CountSolid(ps, Marker(EndMarker(marker)));
    CountSolid(qs, Marker(EndMarker(marker)));
  }

  /** The block between unmarked pieces is what is found. */
  lemma FoundBetween(x: seq<Piece>, mid: seq<Piece>, y: seq<Piece>, marker: string)
    requires Unmarked(x + y, marker) && Unmarked(mid, marker) && ValidMarker(marker)
    ensures var block := [Marker(StartMarker(marker))] + mid + [Marker(EndMarker(marker))];
      FindMarkers(x + block + y, marker) == Ok(Marked(|x|, |x| + |block| - 1))
  {
    hide CountPiece, FirstPiece, StartMarker, EndMarker;
    MarkerText(marker);
    var s, e := Marker(StartMarker(marker)), Marker(EndMarker(marker));
    var block := [s] + mid + [e];
    assert x + block + y == x + ([s] + (mid + ([e] + y)));
    forall p | p == s || p == e
      ensures CountPiece(x + block + y, p) == 1 && CountPiece(x, p) == 0 && CountPiece(mid, p) == 0
    {
      CountPieces(x, y, p);
      CountPieces(x, [s] + (mid + ([e] + y)), p);
      CountPieces([s], mid + ([e] + y), p);
      CountPieces(mid, [e] + y, p);
      CountPieces([e], y, p);
      CountSingle(s, p);
      CountSingle(e, p);
    }
    FirstBehind(x, s, [s] + (mid + ([e] + y)));
    FirstHere(s, mid + ([e] + y));
    assert x + block + y == (x + [s] + mid) + ([e] + y);
    CountPieces(x + [s], mid, e);
    CountPieces(x, [s], e);
    CountSingle(s, e);
    FirstBehind(x + [s] + mid, e, [e] + y);
    FirstHere(e, y);
  }

  lemma CountSingle(q: Piece, p: Piece)
    ensures CountPiece([q], p) == if p == q then 1 else 0
  {
  }

  lemma FirstHere(p: Piece, ps: seq<Piece>)
    ensures FirstPiece([p] + ps, p) == 0
  {
  }

  function BlockMiddle(included: string, eol: string): seq<Piece> {
    var file := SingleQuoted("/" + included);
    Blanks(eol) + (Line2Pieces(file) + (Blanks(eol) + (Line3Pieces(file) + (Blanks(eol) + ([Sign("}")] + Blanks(eol))))))
  }

  lemma BlockIs(included: string, marker: string, eol: string)
    ensures BlockPieces(included, marker, eol) == [Marker(StartMarker(marker))] + BlockMiddle(included, eol) + [Marker(EndMarker(marker))]
    ensures Unmarked(BlockMiddle(included, eol), marker)
  {
    hide SingleQuoted, Blanks, CountPiece, StartMarker, EndMarker;
    var file, e := SingleQuoted("/" + included), [Marker(EndMarker(marker))];
    var m := BlockMiddle(included, eol);
    var l2, l3, b := Line2Pieces(file), Line3Pieces(file), Blanks(eol);
    Nest(b, l2, l3, [Sign("}")], e);
    assert forall i :: 0 <= i < |m| ==> m[i].kind != Comment;
    NoComments(m, Marker(StartMarker(marker)));
    NoComments(m, Marker(EndMarker(marker)));
  }

  lemma Nest<T>(b: seq<T>, l: seq<T>, m: seq<T>, c: seq<T>, e: seq<T>)
    ensures (b + (l + (b + (m + (b + (c + b)))))) + e == b + (l + (b + (m + (b + (c + (b + e))))))
  {
  }

  lemma {:induction false} NoComments(ps: seq<Piece>, p: Piece)
    requires p.kind == Comment && forall i :: 0 <= i < |ps| ==> ps[i].kind != Comment
    ensures CountPiece(ps, p) == 0
  {
    if ps != [] { NoComments(ps[1..], p); }
  }

  // ----- one run -----

  /** The run can rewrite the source. */
  predicate Ready(src: string, marker: string) {
    && Parse(src).Ok?
    && var ps := AllPieces(Parse(src).value);
      FindMarkers(ps, marker).Ok? && Movable(ps, FindMarkers(ps, marker).value)
  }

  function PiecesOf(src: string): seq<Piece>
    requires Parse(src).Ok?
  {
    AllPieces(Parse(src).value)
  }

  lemma EolTwo(src: string)
    ensures EOL(src) == "\n" || EOL(src) == "\r\n"
  {
  }

  lemma ParsedPieces(src: string)
    requires Parse(src).Ok?
    ensures Scan(src, false) == Ok(PiecesOf(src)) && Bare(PiecesOf(src)) != [] && Balanced(Bare(PiecesOf(src)))
  {
    hide Parse, Scan;
    ParseScan(src);
    ParsePieces(src, PiecesOf(src));
  }

  /** The source is scanned and its markers are found where the block can be
      rewritten without running into other code. */
  predicate Scanned(src: string, marker: string) {
    && Parse(src).Ok? && FindMarkers(PiecesOf(src), marker).Ok?
    && Placed(PiecesOf(src), FindMarkers(PiecesOf(src), marker).value)
  }

  lemma RemainsIs(src: string, ps: seq<Piece>, b: nat)
    requires Scan(src, false) == Ok(ps) && b < |ps|
    ensures Off(ps, b + 1) <= |src| && Remains(ps, b) == src[PastBreak(src, Off(ps, b + 1), EOL(src))..]
  {
    hide Scan, Flatten, EOL, Lexes, Lex;
    ScanLexes(src, false);
    TextBehind(src, ps, b + 1);
    PastWithin(src, Off(ps, b + 1), EOL(src));
  }

  lemma PastWithin(src: string, n: nat, eol: string)
    requires n <= |src|
    ensures src[n..][PastBreak(src[n..], 0, eol)..] == src[PastBreak(src, n, eol)..]
  {
  }

  /** What the run returns, by where the block stands. */
  lemma PatchOf(src: string, included: string, marker: string)
    requires Parse(src).Ok? && FindMarkers(PiecesOf(src), marker).Ok?
    ensures
      var ps, eol := PiecesOf(src), EOL(src);
      var t, block := SectionEnd(ps), IncludeBlock(included, marker, eol);
      && Off(ps, t) <= |src|
      && match FindMarkers(ps, marker).value
         case NoMarkers => PatchInclude(src, included, marker) == Ok(AddBlock(src, Off(ps, t), block, eol))
         case Marked(a, b) =>
           && a <= b < t && Off(ps, a) <= Off(ps, b + 1) <= Off(ps, t)
           && if AtEnd(ps, b) then PatchInclude(src, included, marker) == Ok(src[..Off(ps, a)] + block + src[Off(ps, b + 1)..])
              else
                var e := PastBreak(src, Off(ps, b + 1), eol);
                e <= Off(ps, t) && PatchInclude(src, included, marker) == Ok(AddBlock(src[..Off(ps, a)] + src[e..], Off(ps, t) - (e - Off(ps, a)), block, eol))
  {
    hide Parse, Scan, Flatten, IncludeBlock, SectionEnd, StartMarker, EndMarker, AddBlock, FindMarkers, EOL, AllSpace;
    var ps, d := PiecesOf(src), Parse(src).value;
    OffBounds(src, d, SectionEnd(ps));
    if FindMarkers(ps, marker).value.Marked? {
      var m := FindMarkers(ps, marker).value;
      MarkedBounds(src, d, m.a, m.b);
      var end, position := Off(ps, m.b + 1), Off(ps, SectionEnd(ps));
      OffMonotone(ps, m.b + 1, SectionEnd(ps));
      assert src[end..position] == src[..position][end..] == Flatten(ps[m.b + 1..SectionEnd(ps)]);
      if !AllSpace(src[end..position]) { PastBreakBounds(src, end, position, EOL(src)); }
    }
  }

  /** What stands before and behind the block after the run. */
  predicate Around(ps: seq<Piece>, m: Markers, eol: string, x: seq<Piece>, y: seq<Piece>)
    requires m.Marked? ==> m.a <= m.b < |ps|
  {
    && x != []
    && if m.Marked? && AtEnd(ps, m.b) then x == ps[..m.a] && y == ps[m.b + 1..]
      else x[|x| - 1].kind == Blank && y == Blanks(eol) + ps[SectionEnd(ps)..]
  }

  lemma Patched(src: string, included: string, marker: string) returns (x: seq<Piece>, y: seq<Piece>)
    requires ValidMarker(marker) && Scanned(src, marker)
    ensures PatchInclude(src, included, marker).Ok?
    ensures var ps := PiecesOf(src);
      var m := FindMarkers(ps, marker).value;
      && Rewritten(PatchInclude(src, included, marker).value, x, BlockPieces(included, marker, EOL(src)), y, Outside(ps, m))
      && Around(ps, m, EOL(src), x, y)
  {
    hide PatchInclude, Parse, Scan, Flatten, BlockPieces, IncludeBlock, SectionEnd, ModeAfter, Solid, Bare, StartMarker, EndMarker, AddBlock, Rewritten, FindMarkers, EOL, AtEnd, PastBreak, Remains, Off, Follows;
    var ps, eol := PiecesOf(src), EOL(src);
    ParsedPieces(src);
    EolTwo(src);
    SectionMode(src, ps);
    PatchOf(src, included, marker);
    match FindMarkers(ps, marker).value
    case NoMarkers =>
      x, y := Added(src, ps, SectionEnd(ps), included, marker, eol);
    case Marked(a, b) =>
      if AtEnd(ps, b) {
        Kept(src, ps, a, b, included, marker, eol);
        x, y := ps[..a], ps[b + 1..];
        CommentMode(src, ps, a);
        NonEmptyMode(x);
      } else {
        RemainsIs(src, ps, b);
        x, y := Moved(src, ps, a, b, included, marker, eol);
      }
  }

  /** A source that scans to the block at the end of its last section. */
  lemma Settles(out: string, x: seq<Piece>, y: seq<Piece>, included: string, marker: string, eol: string, app: seq<Piece>)
    requires ValidMarker(marker) && AllBlank(eol) && eol != "" && (eol[0] == '\n' || eol[0] == '\r')
    requires Rewritten(out, x, BlockPieces(included, marker, eol), y, app) && Unmarked(app, marker) && Balanced(Bare(app))
    ensures Managed(out, marker) && BlockOf(out, marker) == IncludeBlock(included, marker, eol)
    ensures Application(out, marker) == Ok(Solid(app))
    ensures var block := BlockPieces(included, marker, eol);
      && block != [] && PiecesOf(out) == x + block + y && FindMarkers(PiecesOf(out), marker) == Ok(Marked(|x|, |x| + |block| - 1))
      && Outside(PiecesOf(out), Marked(|x|, |x| + |block| - 1)) == x + y
  {
    hide Parse, Scan, Flatten, BlockPieces, IncludeBlock, SectionEnd, ModeAfter, Solid, Bare, StartMarker, EndMarker, FindMarkers, Balanced, Unmarked, PiecesOf, BlockMiddle, Managed, BlockOf, Application, Outside;
    var block := BlockPieces(included, marker, eol);
    BlockIs(included, marker, eol);
    UnmarkedSolid(x + y, app, marker);
    FoundBetween(x, BlockMiddle(included, eol), y, marker);
    BlockParses(out, x, y, included, marker, eol);
    ReadsBlock(included, marker, eol, "");
    BlockStands(out, x, block, y, IncludeBlock(included, marker, eol), marker, app);
  }

  /** The block where the markers are found. */
  lemma BlockStands(out: string, x: seq<Piece>, block: seq<Piece>, y: seq<Piece>, text: string, marker: string, app: seq<Piece>)
    requires block != [] && Flatten(block) == text && Parse(out).Ok? && PiecesOf(out) == x + block + y
    requires FindMarkers(x + block + y, marker) == Ok(Marked(|x|, |x| + |block| - 1))
    requires SectionEnd(x + block + y) >= |x + block| && AllSpace(Flatten((x + block + y)[|x + block|..SectionEnd(x + block + y)])) && Solid(x + y) == Solid(app)
    ensures Managed(out, marker) && BlockOf(out, marker) == text && Application(out, marker) == Ok(Solid(app))
    ensures Outside(PiecesOf(out), Marked(|x|, |x| + |block| - 1)) == x + y
  {
    hide Parse, Flatten, SectionEnd, Solid, FindMarkers, AllSpace;
    var ps := x + block + y;
    assert ps[|x|..|x| + |block| - 1 + 1] == block;
    assert ps[..|x|] == x && ps[|x| + |block| - 1 + 1..] == y;
  }

  lemma BlockParses(out: string, x: seq<Piece>, y: seq<Piece>, included: string, marker: string, eol: string)
    requires Scan(out, false) == Ok(x + BlockPieces(included, marker, eol) + y) && Balanced(Bare(x + y))
    ensures Parse(out).Ok? && PiecesOf(out) == x + BlockPieces(included, marker, eol) + y
  {
    hide Parse, Scan, BlockPieces, Bare, Balanced, Shape;
    var block := BlockPieces(included, marker, eol);
    BlockBalanced(included, marker, eol);
    BareConcat(x, y);
    BareConcat(x, block);
    BareConcat(x + block, y);
    CommaFree();
    assert Bare(x) + [] + Bare(y) == Bare(x) + Bare(y);
    BalancedReplace(Bare(x), [], Bare(block), Bare(y));
    BlockShape(included, marker, eol);
    ShapeBare(block);
    ParsePieces(out, x + block + y);
  }

  lemma CommaFree()
    ensures Balanced([])
  {
  }

  lemma {:induction false} ShapeBare(ps: seq<Piece>)
    requires Shape(ps) != []
    ensures Bare(ps) != []
  {
    if !IsBracket(ps[0]) { ShapeBare(ps[1..]); }
  }

  /** After a run the source has exactly one managed block, with only spaces between
      it and the end of the last PHP section; and the application's tokens, comments
      and HTML are what they were. */
  lemma IncludeManaged(src: string, included: string, marker: string)
    requires ValidMarker(marker) && Ready(src, marker)
    ensures PatchInclude(src, included, marker).Ok?
    ensures var out := PatchInclude(src, included, marker).value;
      && Managed(out, marker) && BlockOf(out, marker) == IncludeBlock(included, marker, EOL(src))
      && Application(out, marker) == Application(src, marker)
  {
    hide PatchInclude, Parse, Rewritten, BlockPieces, IncludeBlock, FindMarkers, Outside, Solid, Managed, Bare, Balanced, EOL;
    var x, y := Patched(src, included, marker);
    var ps := PiecesOf(src);
    OutsideUnmarked(ps, marker);
    EolTwo(src);
    OutsideBalanced(src, marker);
    Settles(PatchInclude(src, included, marker).value, x, y, included, marker, EOL(src), Outside(ps, FindMarkers(ps, marker).value));
  }

  /** The rewritten source parses exactly when the brackets are balanced without
      the old block. */
  lemma IncludeParses(src: string, included: string, marker: string)
    requires ValidMarker(marker) && Scanned(src, marker)
    ensures PatchInclude(src, included, marker).Ok?
    ensures Parse(PatchInclude(src, included, marker).value).Ok? <==> Ready(src, marker)
  {
    hide PatchInclude, Parse, BlockPieces, IncludeBlock, FindMarkers, Outside, Solid, Bare, Balanced, EOL, SectionEnd, Flatten, ModeAfter, Scan, Shape;
    var x, y := Patched(src, included, marker);
    var out, block := PatchInclude(src, included, marker).value, BlockPieces(included, marker, EOL(src));
    BlockBalanced(included, marker, EOL(src));
    BareConcat(x, y);
    BareConcat(x, block);
    BareConcat(x + block, y);
    CommaFree();
    assert Bare(x) + [] + Bare(y) == Bare(x) + Bare(y);
    BalancedReplace(Bare(x), [], Bare(block), Bare(y));
    BlockShape(included, marker, EOL(src));
    ShapeBare(block);
    ParsePieces(out, x + block + y);
  }

  lemma OutsideBalanced(src: string, marker: string)
    requires Ready(src, marker)
    ensures Balanced(Bare(Outside(PiecesOf(src), FindMarkers(PiecesOf(src), marker).value)))
  {
  }

  // ----- a second run -----

  /** On a managed source the run rewrites the block in place. */
  lemma ManagedRun(src: string, included: string, marker: string)
    requires Managed(src, marker)
    ensures PatchInclude(src, included, marker) == Ok(src) <==> BlockOf(src, marker) == IncludeBlock(included, marker, EOL(src))
  {
    hide Parse, Scan, Flatten, IncludeBlock, SectionEnd, FindMarkers, EOL, AddBlock;
    var ps := PiecesOf(src);
    var d := Parse(src).value;
    var m := FindMarkers(ps, marker).value;
    var a, b := m.a, m.b;
    MarkedBounds(src, d, a, b);
    OffBounds(src, d, SectionEnd(ps));
    OffBounds(src, d, a);
    OffBounds(src, d, b + 1);
    OffMonotone(ps, b + 1, SectionEnd(ps));
    OffMonotone(ps, a, b + 1);
    var start, end, position := Off(ps, a), Off(ps, b + 1), Off(ps, SectionEnd(ps));
    assert src[end..position] == src[..position][end..] == Flatten(ps[b + 1..SectionEnd(ps)]);
    assert src[start..end] == src[..end][start..] == BlockOf(src, marker);
    var block := IncludeBlock(included, marker, EOL(src));
    assert PatchInclude(src, included, marker) == Ok(src[..start] + block + src[end..]);
    MiddleIs(src, start, end, block);
  }

  lemma MiddleIs(s: string, a: nat, b: nat, t: string)
    requires a <= b <= |s|
    ensures s[..a] + t + s[b..] == s <==> t == s[a..b]
  {
  }

  lemma BlockLength(included: string, marker: string, eol: string)
    ensures |IncludeBlock(included, marker, eol)| == |IncludeBlock(included, marker, "")| + 4 * |eol|
  {
    hide SingleQuoted, Line2, Line3, StartMarker, EndMarker;
    var q := SingleQuoted("/" + included);
    JoinFive(StartMarker(marker), Line2(q), Line3(q), EndMarker(marker), eol);
    JoinFive(StartMarker(marker), Line2(q), Line3(q), EndMarker(marker), "");
  }

  /** A second run changes nothing exactly when the first one did not change the
      line break that the file is taken to use. */
  lemma IncludeAgain(src: string, included: string, marker: string)
    requires ValidMarker(marker) && Ready(src, marker)
    ensures PatchInclude(src, included, marker).Ok?
    ensures var out := PatchInclude(src, included, marker).value;
      PatchInclude(out, included, marker) == Ok(out) <==> EOL(out) == EOL(src)
  {
    hide PatchInclude, Managed, IncludeBlock, EOL, BlockOf, Application, Ready;
    IncludeManaged(src, included, marker);
    var out := PatchInclude(src, included, marker).value;
    ManagedRun(out, included, marker);
    EolTwo(src);
    EolTwo(out);
    BlockLength(included, marker, EOL(src));
    BlockLength(included, marker, EOL(out));
  }
}
