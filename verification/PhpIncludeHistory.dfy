/** Runs of patchPHPInclude between which the application appends code.  The
    block follows the code to the end each time, and nothing that was appended is
    lost or reordered. */
module PhpIncludeHistory {
  import opened Text
  import opened PhpLexer
  import opened PhpTokens
  import opened PhpSplice
  import opened PhpEntries
  import opened PhpArrayPatch
  import opened PhpIncludeBlock
  import opened PhpInclude
  import opened PhpIncludeLaws
  import opened PhpIncludeRuns
  import opened PhpIncludeBreaks

  /** Whether a file ends in PHP code. */
  predicate InPhp(src: string)
    requires Parse(src).Ok?
  {
    ModeAfter(PiecesOf(src), false)
  }

  /** Text that may be appended to a file: it scans from where the file ends and does
      not run into it, has balanced brackets and no marker; and the block can be
      rewritten afterwards. */
  predicate Extends(src: string, app: string, marker: string) {
    && Parse(src).Ok? && FindMarkers(PiecesOf(src), marker).Ok?
    && match Scan(app, InPhp(src))
       case Err(_) => false
       case Ok(qs) =>
         && Follows(PiecesOf(src), app) && Balanced(Bare(qs)) && Unmarked(qs, marker)
         && Placed(PiecesOf(src) + qs, FindMarkers(PiecesOf(src), marker).value)
  }

  /** The source after the first run, and after one more run for every appended
      piece of code. */
  function History(src: string, included: string, marker: string, apps: seq<string>): Result<string, PhpError> {
    if apps == [] then PatchInclude(src, included, marker)
    else
      match History(src, included, marker, apps[..|apps| - 1])
      case Err(e) => Err(e)
      case Ok(s) => PatchInclude(s + apps[|apps| - 1], included, marker)
  }

  /** Each of the texts may be appended to what the run before it left. */
  predicate Extended(src: string, included: string, marker: string, apps: seq<string>) {
    apps == [] ||
    (var n := |apps| - 1;
      && Extended(src, included, marker, apps[..n])
      && History(src, included, marker, apps[..n]).Ok?
      && Extends(History(src, included, marker, apps[..n]).value, apps[n], marker))
  }

  /** The pieces of a text, blanks aside. */
  function CodePieces(app: string, php: bool): seq<Piece> {
    match Scan(app, php)
    case Err(_) => []
    case Ok(qs) => Solid(qs)
  }

  /** Whether a file ends in PHP code after a text was appended. */
  predicate PhpAfter(app: string, php: bool) {
    match Scan(app, php)
    case Err(_) => php
    case Ok(qs) => ModeAfter(qs, php)
  }

  /** The pieces of all appended texts, and where they leave the file. */
  function Appended(apps: seq<string>, php: bool): (seq<Piece>, bool) {
    if apps == [] then ([], php)
    else
      var n := |apps| - 1;
      var (before, mode) := Appended(apps[..n], php);
      (before + CodePieces(apps[n], mode), PhpAfter(apps[n], mode))
  }

  // ----- one text -----

  lemma AppendScan(src: string, ps: seq<Piece>, app: string, qs: seq<Piece>)
    requires Scan(src, false) == Ok(ps) && Follows(ps, app) && Scan(app, ModeAfter(ps, false)) == Ok(qs)
    ensures Scan(src + app, false) == Ok(ps + qs)
  {
    hide Scan, Lex, Lexes, Flatten, ModeAfter, Follows;
    ScanLexes(src, false);
    LexesMove(ps, false, "", app);
    LexesScan(ps, false, app);
  }

  lemma {:induction false} FirstKept(ps: seq<Piece>, qs: seq<Piece>, p: Piece)
    requires FirstPiece(ps, p) < |ps|
    ensures FirstPiece(ps + qs, p) == FirstPiece(ps, p)
  {
    if ps[0] != p {
      assert (ps + qs)[1..] == ps[1..] + qs;
      FirstKept(ps[1..], qs, p);
    }
  }

  lemma FoundAppend(ps: seq<Piece>, qs: seq<Piece>, marker: string)
    requires FindMarkers(ps, marker).Ok? && FindMarkers(ps, marker).value.Marked? && Unmarked(qs, marker)
    ensures FindMarkers(ps + qs, marker) == FindMarkers(ps, marker)
  {
    hide CountPiece, FirstPiece;
    var s, e := Marker(StartMarker(marker)), Marker(EndMarker(marker));
    CountPieces(ps, qs, s);
    CountPieces(ps, qs, e);
    FirstKept(ps, qs, s);
    FirstKept(ps, qs, e);
  }

  /** Appending leaves a file that can be rewritten. */
  lemma AppendReady(src: string, app: string, marker: string)
    requires Ready(src, marker) && Extends(src, app, marker)
    ensures Ready(src + app, marker) && Application(src, marker).Ok?
    ensures Application(src + app, marker) == Ok(Application(src, marker).value + CodePieces(app, InPhp(src)))
    ensures InPhp(src + app) == PhpAfter(app, InPhp(src))
  {
    hide Parse, Scan, Flatten, FindMarkers, Solid, Bare, Balanced, ModeAfter, Unmarked, Outside, Follows, Placed;
    var ps := PiecesOf(src);
    var qs := Scan(app, InPhp(src)).value;
    var m := FindMarkers(ps, marker).value;
    var rs := ps + qs;
    ParsedPieces(src);
    AppendScan(src, ps, app, qs);
    FoundAny(ps, qs, marker);
    OutsideAppend(ps, qs, m);
    BareConcat(Outside(ps, m), qs);
    BalancedConcat(Bare(Outside(ps, m)), Bare(qs));
    BareConcat(ps, qs);
    BalancedConcat(Bare(ps), Bare(qs));
    ParsePieces(src + app, rs);
    SolidConcat(Outside(ps, m), qs);
    ModeConcat(ps, qs, false);
  }

  lemma FoundAny(ps: seq<Piece>, qs: seq<Piece>, marker: string)
    requires FindMarkers(ps, marker).Ok? && Unmarked(qs, marker)
    ensures FindMarkers(ps + qs, marker) == FindMarkers(ps, marker)
  {
    hide CountPiece, FirstPiece;
    var s, e := Marker(StartMarker(marker)), Marker(EndMarker(marker));
    if FindMarkers(ps, marker).value.Marked? {
      FoundAppend(ps, qs, marker);
    } else {
      FirstAt(ps, s);
      FirstAt(ps, e);
      CountPieces(ps, qs, s);
      CountPieces(ps, qs, e);
      FirstAt(ps + qs, s);
      FirstAt(ps + qs, e);
    }
  }

  lemma OutsideAppend(ps: seq<Piece>, qs: seq<Piece>, m: Markers)
    requires m.Marked? ==> m.a <= m.b < |ps|
    ensures Outside(ps + qs, m) == Outside(ps, m) + qs
  {
  }

  lemma {:induction false} BareSolid(ps: seq<Piece>)
    ensures Bare(Solid(ps)) == Bare(ps)
  {
    if ps != [] {
      BareSolid(ps[1..]);
      BareConcat(if ps[0].kind == Blank then [] else [ps[0]], Solid(ps[1..]));
    }
  }

  lemma SolidBalanced(ps: seq<Piece>, qs: seq<Piece>)
    requires Solid(ps) == Solid(qs) && Balanced(Bare(ps))
    ensures Balanced(Bare(qs))
  {
    hide Bare, Solid, Balanced;
    BareSolid(ps);
    BareSolid(qs);
  }

  /** What a run leaves can be rewritten, and ends where the file ended. */
  lemma RunReady(src: string, included: string, marker: string)
    requires ValidMarker(marker) && Ready(src, marker)
    ensures PatchInclude(src, included, marker).Ok? && Application(src, marker).Ok?
    ensures var out := PatchInclude(src, included, marker).value;
      Ready(out, marker) && Managed(out, marker) && Application(out, marker) == Application(src, marker) && InPhp(out) == InPhp(src)
  {
    hide PatchInclude, Parse, FindMarkers, Solid, Outside, Bare, Balanced, InPhp, AtEnd, Follows, Remains;
    IncludeManaged(src, included, marker);
    var out := PatchInclude(src, included, marker).value;
    SolidBalanced(Outside(PiecesOf(src), FindMarkers(PiecesOf(src), marker).value), Outside(PiecesOf(out), FindMarkers(PiecesOf(out), marker).value));
    RunMode(src, included, marker);
  }

  /** A run keeps the mode in which the file ends. */
  lemma RunMode(src: string, included: string, marker: string)
    requires ValidMarker(marker) && Ready(src, marker) && PatchInclude(src, included, marker).Ok?
    ensures var out := PatchInclude(src, included, marker).value;
      Parse(out).Ok? && InPhp(out) == InPhp(src)
  {
    hide PatchInclude, Parse, Scan, Flatten, BlockPieces, IncludeBlock, FindMarkers, Solid, Bare, Balanced, EOL, ModeAfter, SectionEnd, Unmarked, Managed, AtEnd, Application, Outside, BlockOf, Around, AllSpace;
    var ps, m, eol := PiecesOf(src), FindMarkers(PiecesOf(src), marker).value, EOL(src);
    ParsedPieces(src);
    EolTwo(src);
    OutsideUnmarked(ps, marker);
    var x, y := Patched(src, included, marker);
    var out, block := PatchInclude(src, included, marker).value, BlockPieces(included, marker, eol);
    Settles(out, x, y, included, marker, eol, Outside(ps, m));
    ManagedParses(out, marker);
    ReadsBlock(included, marker, eol, "");
    ModeConcat(x, block, false);
    ModeConcat(x + block, y, false);
    BehindMode(src, ps, m, eol, x, y);
  }

  lemma ManagedParses(out: string, marker: string)
    requires Managed(out, marker)
    ensures Parse(out).Ok?
  {
  }

  lemma BehindMode(src: string, ps: seq<Piece>, m: Markers, eol: string, x: seq<Piece>, y: seq<Piece>)
    requires Scan(src, false) == Ok(ps) && Bare(ps) != [] && AllBlank(eol)
    requires m.Marked? ==> m.a <= m.b < |ps| && ps[m.b].kind == Comment
    requires Around(ps, m, eol, x, y)
    ensures ModeAfter(y, true) == ModeAfter(ps, false)
  {
    hide Scan, Bare, ModeAfter, SectionEnd, AtEnd;
    if m.Marked? && AtEnd(ps, m.b) {
      CommentMode(src, ps, m.b);
      ModeSplit(ps, m.b + 1, false);
    } else {
      var t := SectionEnd(ps);
      SectionMode(src, ps);
      ModeSplit(ps, t, false);
      ModeConcat(Blanks(eol), ps[t..], true);
      TriviaMode(Blanks(eol), true);
    }
  }

  /** A run on a source to which text was appended. */
  lemma AppendRun(src: string, app: string, included: string, marker: string)
    requires ValidMarker(marker) && Ready(src, marker) && Extends(src, app, marker)
    ensures Application(src, marker).Ok? && PatchInclude(src + app, included, marker).Ok?
    ensures var out := PatchInclude(src + app, included, marker).value;
      && Ready(out, marker) && Managed(out, marker)
      && Application(out, marker) == Ok(Application(src, marker).value + CodePieces(app, InPhp(src)))
      && InPhp(out) == PhpAfter(app, InPhp(src))
  {
    hide PatchInclude, Ready, Application, Extends, Managed, CodePieces, PhpAfter, InPhp;
    ReadyParses(src, marker);
    AppendReady(src, app, marker);
    ReadyParses(src + app, marker);
    RunReady(src + app, included, marker);
    ReadyParses(PatchInclude(src + app, included, marker).value, marker);
  }

  lemma ReadyParses(src: string, marker: string)
    requires Ready(src, marker)
    ensures Parse(src).Ok? && Application(src, marker).Ok?
  {
  }

  // ----- any number of texts -----

  /** Over any run: every patch succeeds, the block is alone and at the end, and the
      application's code is what it was at first followed by all that was appended,
      in order. */
  lemma {:induction false} IncludeHistory(src: string, included: string, marker: string, apps: seq<string>)
    requires ValidMarker(marker) && Ready(src, marker) && Extended(src, included, marker, apps)
    ensures Application(src, marker).Ok? && History(src, included, marker, apps).Ok?
    ensures var (out, (added, php)) := (History(src, included, marker, apps).value, Appended(apps, InPhp(src)));
      && Ready(out, marker) && Managed(out, marker)
      && Application(out, marker) == Ok(Application(src, marker).value + added) && InPhp(out) == php
    decreases |apps|
  {
    hide PatchInclude, Application, Ready, Managed, Extends, CodePieces, PhpAfter, InPhp, ValidMarker;
    ReadyParses(src, marker);
    var first := Application(src, marker).value;
    if apps == [] {
      RunReady(src, included, marker);
      assert first + [] == first;
    } else {
      var n := |apps| - 1;
      IncludeHistory(src, included, marker, apps[..n]);
      var s := History(src, included, marker, apps[..n]).value;
      ReadyParses(s, marker);
      AppendRun(s, apps[n], included, marker);
      var before := Appended(apps[..n], InPhp(src)).0;
      assert first + before + CodePieces(apps[n], InPhp(s)) == first + (before + CodePieces(apps[n], InPhp(s)));
    }
    ReadyParses(History(src, included, marker, apps).value, marker);
  }

  // ----- appending PHP code -----

  predicate EndsBlank(ps: seq<Piece>) { ps != [] && ps[|ps| - 1].kind == Blank }

  /** Code that may be appended to PHP code: it scans on its own, leaves PHP mode on,
      has no marker of its own, and has something other than spaces unless it is
      blank. */
  predicate Code(app: string, marker: string) {
    match Scan(app, true)
    case Err(_) => false
    case Ok(qs) => Balanced(Bare(qs)) && ModeAfter(qs, true) && Unmarked(qs, marker) && (Solid(qs) == [] || !AllSpace(app))
  }

  /** A file that ends in PHP code, with room behind its block and before it if the
      block is at the end already. */
  predicate Extensible(src: string, marker: string) {
    && Ready(src, marker) && InPhp(src)
    && (Managed(src, marker) ==> Roomy(src, marker))
  }

  predicate Roomy(src: string, marker: string)
    requires Parse(src).Ok? && FindMarkers(PiecesOf(src), marker).Ok?
  {
    var ps := PiecesOf(src);
    var m := FindMarkers(ps, marker).value;
    m.Marked? && Detached(ps, m.a) && EndsBlank(ps)
  }

  lemma {:induction false} SolidNothing(qs: seq<Piece>)
    requires Solid(qs) == []
    ensures forall i :: 0 <= i < |qs| ==> qs[i].kind == Blank
  {
    if qs != [] { SolidNothing(qs[1..]); }
  }

  lemma SpaceTail(a: string, b: string)
    requires AllSpace(a + b)
    ensures AllSpace(b)
  {
    forall i | 0 <= i < |b|
      ensures IsSpace(b[i])
    {
      assert (a + b)[|a| + i] == b[i];
    }
  }

  /** Such code may be appended where there is room, and there is room afterwards. */
  lemma CodeExtends(src: string, app: string, marker: string)
    requires Ready(src, marker) && InPhp(src) && Roomy(src, marker) && Code(app, marker)
    ensures Extends(src, app, marker) && Extensible(src + app, marker)
  {
    hide Parse, Scan, Flatten, FindMarkers, Solid, Bare, Balanced, ModeAfter, Unmarked, Outside, Follows, Remains, AtEnd, AllSpace, SectionEnd;
    var ps := PiecesOf(src);
    var qs := Scan(app, true).value;
    var m := FindMarkers(ps, marker).value;
    ParsedPieces(src);
    assert ps[..|ps|] == ps;
    OpenOrBlank(src, ps, |ps|, app);
    assert (ps + qs)[..m.a] == ps[..m.a];
    OpenOrBlank(src, ps, m.a, Remains(ps + qs, m.b));
    AppendReady(src, app, marker);
    AppendScan(src, ps, app, qs);
    FoundAny(ps, qs, marker);
    ParsedPieces(src + app);
    assert PiecesOf(src + app) == ps + qs;
    if Managed(src + app, marker) { RoomLeft(src, ps, qs, app, m); }
  }

  lemma RoomLeft(src: string, ps: seq<Piece>, qs: seq<Piece>, app: string, m: Markers)
    requires Scan(app, true) == Ok(qs) && m.Marked? && m.a <= m.b < |ps| && Detached(ps, m.a) && EndsBlank(ps)
    requires ModeAfter(ps + qs, false) && AtEnd(ps + qs, m.b) && (Solid(qs) == [] || !AllSpace(app))
    ensures Detached(ps + qs, m.a) && EndsBlank(ps + qs)
  {
    hide Scan, Flatten, Solid, ModeAfter, AllSpace, SectionEnd;
    var rs := ps + qs;
    SectionModeEnd(rs);
    assert rs[m.b + 1..|rs|] == ps[m.b + 1..] + qs;
    FlattenConcat(ps[m.b + 1..], qs);
    ScanLexes(app, true);
    SpaceTail(Flatten(ps[m.b + 1..]), app);
    SolidNothing(qs);
  }

  /** A run makes room. */
  lemma RunRoomy(src: string, included: string, marker: string)
    requires ValidMarker(marker) && Extensible(src, marker)
    ensures PatchInclude(src, included, marker).Ok?
    ensures var out := PatchInclude(src, included, marker).value;
      Ready(out, marker) && InPhp(out) && Roomy(out, marker)
  {
    hide PatchInclude, Parse, Scan, Flatten, BlockPieces, IncludeBlock, FindMarkers, Solid, Bare, Balanced, EOL, ModeAfter, SectionEnd, Unmarked, AtEnd, Application, BlockOf, AllSpace, Follows, Remains;
    RunReady(src, included, marker);
    var ps, m, eol := PiecesOf(src), FindMarkers(PiecesOf(src), marker).value, EOL(src);
    ParsedPieces(src);
    SectionModeEnd(ps);
    EolTwo(src);
    OutsideUnmarked(ps, marker);
    var x, y := Patched(src, included, marker);
    var out, block := PatchInclude(src, included, marker).value, BlockPieces(included, marker, eol);
    Settles(out, x, y, included, marker, eol, Outside(ps, m));
    RoomAround(ps, m, marker, eol, x, block, y);
  }

  lemma RoomAround(ps: seq<Piece>, m: Markers, marker: string, eol: string, x: seq<Piece>, block: seq<Piece>, y: seq<Piece>)
    requires m.Marked? ==> m.a <= m.b < |ps|
    requires FindMarkers(ps, marker) == Ok(m) && SectionEnd(ps) == |ps| && eol != "" && Around(ps, m, eol, x, y)
    requires m.Marked? && AtEnd(ps, m.b) ==> Detached(ps, m.a) && EndsBlank(ps)
    ensures Detached(x + block + y, |x|) && EndsBlank(x + block + y)
  {
    hide FindMarkers, AtEnd, SectionEnd;
    if m.Marked? && AtEnd(ps, m.b) { BlankKept(ps, m, marker, y); }
    var rs := x + block + y;
    assert rs[|rs| - 1] == y[|y| - 1] && rs[|x| - 1] == x[|x| - 1];
  }

  lemma BlankKept(ps: seq<Piece>, m: Markers, marker: string, y: seq<Piece>)
    requires FindMarkers(ps, marker) == Ok(m) && m.Marked? && EndsBlank(ps) && y == ps[m.b + 1..]
    ensures EndsBlank(y)
  {
    hide FindMarkers;
    assert ps[m.b].kind == Comment;
    assert m.b != |ps| - 1;
    assert y[|y| - 1] == ps[|ps| - 1];
  }

  /** PHP code may be appended to PHP code any number of times, with or without a
      line break at its end. */
  lemma {:induction false} CodeExtended(src: string, included: string, marker: string, apps: seq<string>)
    requires ValidMarker(marker) && Extensible(src, marker) && forall i :: 0 <= i < |apps| ==> Code(apps[i], marker)
    ensures Extended(src, included, marker, apps) && History(src, included, marker, apps).Ok?
    ensures var out := History(src, included, marker, apps).value;
      Ready(out, marker) && InPhp(out) && Roomy(out, marker)
    decreases |apps|
  {
    hide PatchInclude, Ready, Extends, InPhp, ValidMarker, Extensible, Roomy, Code;
    if apps == [] {
      RunRoomy(src, included, marker);
    } else {
      var n := |apps| - 1;
      CodeExtended(src, included, marker, apps[..n]);
      var s := History(src, included, marker, apps[..n]).value;
      ReadyParses(s, marker);
      assert Code(apps[n], marker);
      CodeExtends(s, apps[n], marker);
      RunRoomy(s + apps[n], included, marker);
    }
  }

  // ----- patching the end of a history again -----

  /** What the last run of a history reads. */
  function LastInput(src: string, included: string, marker: string, apps: seq<string>): Result<string, PhpError> {
    if apps == [] then Ok(src)
    else
      match History(src, included, marker, apps[..|apps| - 1])
      case Err(e) => Err(e)
      case Ok(s) => Ok(s + apps[|apps| - 1])
  }

  lemma LastReady(src: string, included: string, marker: string, apps: seq<string>)
    requires ValidMarker(marker) && Ready(src, marker) && Extended(src, included, marker, apps)
    ensures LastInput(src, included, marker, apps).Ok?
    ensures var last := LastInput(src, included, marker, apps).value;
      Ready(last, marker) && History(src, included, marker, apps) == PatchInclude(last, included, marker)
  {
    hide PatchInclude, Application, Managed, Ready, Extends, ValidMarker, InPhp;
    ReadyParses(src, marker);
    if apps != [] {
      var n := |apps| - 1;
      IncludeHistory(src, included, marker, apps[..n]);
      AppendReady(History(src, included, marker, apps[..n]).value, apps[n], marker);
    }
  }

  /** Patching the end of a history again changes nothing exactly when the last run
      read CRLF or gained none. */
  lemma HistoryAgain(src: string, included: string, marker: string, apps: seq<string>)
    requires ValidMarker(marker) && Ready(src, marker) && Extended(src, included, marker, apps)
    ensures History(src, included, marker, apps).Ok? && LastInput(src, included, marker, apps).Ok?
    ensures var out, last := History(src, included, marker, apps).value, LastInput(src, included, marker, apps).value;
      && Ready(last, marker)
      && (PatchInclude(out, included, marker) == Ok(out) <==> EOL(last) == "\r\n" || !GainsCrlf(last, included, marker))
  {
    hide PatchInclude, History, LastInput, Extended, Ready, EOL, GainsCrlf;
    LastReady(src, included, marker, apps);
    IncludeIdempotent(LastInput(src, included, marker, apps).value, included, marker);
  }

  /** The file uses CRLF; or there is no carriage return in it, nor in what is
      added to it. */
  predicate Plain(src: string, added: string) { EOL(src) == "\r\n" || (Without(src, '\r') && Without(added, '\r')) }

  lemma PlainAppend(s: string, included: string, app: string)
    requires Plain(s, included) && (EOL(s) == "\r\n" || Without(app, '\r'))
    ensures Plain(s + app, included) && (EOL(s) == "\r\n" ==> EOL(s + app) == "\r\n")
  {
    hide EOL, Crlf, Without;
    EolCrlf(s);
    EolCrlf(s + app);
    CrlfConcat(s, app);
    WithoutConcat(s, app, '\r');
  }

  lemma PlainRun(src: string, included: string, marker: string)
    requires ValidMarker(marker) && Ready(src, marker) && Plain(src, included)
    ensures PatchInclude(src, included, marker).Ok?
    ensures var out := PatchInclude(src, included, marker).value;
      Plain(out, included) && EOL(out) == EOL(src) && PatchInclude(out, included, marker) == Ok(out)
  {
    hide PatchInclude, Ready, EOL, GainsCrlf, Without;
    IncludeIdempotent(src, included, marker);
    EolStays(src, included, marker);
    EolTwo(src);
    if EOL(src) == "\n" {
      NoReturnGains(src, included, marker);
      NoReturn(src, included, marker);
    }
  }

  /** On a file with CRLF, or where neither the file nor what is added to it has a
      carriage return, patching the end of any history again is the identity. */
  lemma {:induction false} HistoryIdempotent(src: string, included: string, marker: string, apps: seq<string>)
    requires ValidMarker(marker) && Ready(src, marker) && Extended(src, included, marker, apps)
    requires Plain(src, included) && (EOL(src) == "\r\n" || forall i :: 0 <= i < |apps| ==> Without(apps[i], '\r'))
    ensures History(src, included, marker, apps).Ok?
    ensures var out := History(src, included, marker, apps).value;
      Plain(out, included) && EOL(out) == EOL(src) && PatchInclude(out, included, marker) == History(src, included, marker, apps)
    decreases |apps|
  {
    hide PatchInclude, Ready, Extends, EOL, Plain, Without, ValidMarker;
    LastReady(src, included, marker, apps);
    if apps != [] {
      var n := |apps| - 1;
      HistoryIdempotent(src, included, marker, apps[..n]);
      PlainAppend(History(src, included, marker, apps[..n]).value, included, apps[n]);
      PlainEol(History(src, included, marker, apps[..n]).value, apps[n], EOL(src), included);
    }
    PlainRun(LastInput(src, included, marker, apps).value, included, marker);
  }

  lemma PlainEol(s: string, app: string, eol: string, included: string)
    requires EOL(s) == eol && Plain(s, included) && (eol == "\r\n" || Without(app, '\r'))
    ensures EOL(s + app) == eol
  {
    hide EOL, Without;
    EolTwo(s);
    PlainAppend(s, included, app);
    if eol == "\n" {
      WithoutConcat(s, app, '\r');
      NoCrlf(s + app);
    }
  }
}
