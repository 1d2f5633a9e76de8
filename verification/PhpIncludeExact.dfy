/** Exactly when a run of patchPHPInclude keeps the application's code. */
module PhpIncludeExact {
  import opened Text
  import opened PhpLexer
  import opened PhpTokens
  import opened PhpSplice
  import opened PhpEntries
  import opened PhpArrayPatch
  import opened PhpIncludeBlock
  import opened PhpInclude
  import opened PhpIncludeLaws
  import opened PhpIncludeRuns

  // ----- where the scan of a longer text goes another way -----

  /** What begins with the same character is a blank in both texts or in neither. */
  lemma SameHead(s: string, s': string, php: bool)
    requires s != "" && s' != "" && s[0] == s'[0] && Lex(s, php).Ok? && Lex(s', php).Ok?
    ensures Lex(s, php).value.kind == Blank <==> Lex(s', php).value.kind == Blank
  {
  }

  lemma LookKind(p: Piece, r: string)
    requires !Look(p, r)
    ensures p.kind == Html || p.kind == Comment || p.kind == Identifier || p.kind == Symbol
  {
  }

  /** The first piece that is scanned otherwise when r' takes the place of r. */
  lemma Parting(ps: seq<Piece>, r: string, r': string, qs: seq<Piece>) returns (i: nat)
    requires Lexes(ps, false, r) && !Lexes(ps, false, r') && Scan(Flatten(ps) + r', false) == Ok(qs)
    ensures i < |ps| && i < |qs| && qs[..i] == ps[..i] && qs[i] != ps[i] && qs[i].kind != Blank && ps[i].kind != Blank
    ensures var head := ps[i].text + Flatten(ps[i + 1..]);
      && ps[i].text != "" && Lexes(ps[..i], false, head + r')
      && Lex(head + r, ModeAfter(ps[..i], false)) == Ok(ps[i]) && Lex(head + r', ModeAfter(ps[..i], false)) == Ok(qs[i])
      && !Look(ps[i], Flatten(ps[i + 1..]) + r')
  {
    hide Lex, Scan, Lexes, Look, ModeAfter;
    i := FirstApart(ps, false, r, r');
    var p, m := ps[i], ModeAfter(ps[..i], false);
    var head, tail := p.text + Flatten(ps[i + 1..]), Flatten(ps[i + 1..]);
    assert ps[i..][1..] == ps[i + 1..];
    assert Flatten(ps[i..]) == head;
    assert ps == ps[..i] + ps[i..];
    FlattenConcat(ps[..i], ps[i..]);
    assert Flatten(ps) + r' == Flatten(ps[..i]) + (head + r');
    LexesScan(ps[..i], false, head + r');
    var q := ScanHead(head + r', m);
    assert qs[i] == q;
    assert head + r == p.text + (tail + r) && head + r' == p.text + (tail + r');
    if Look(p, tail + r') { LexMove(p, m, tail + r, tail + r'); }
    LookKind(p, tail + r');
    SameHead(head + r, head + r', m);
  }

  lemma ScanHead(s: string, php: bool) returns (q: Piece)
    requires s != "" && Scan(s, php).Ok?
    ensures Lex(s, php) == Ok(q) && Scan(s, php).value != [] && Scan(s, php).value[0] == q
  {
    q := Lex(s, php).value;
  }

  lemma SolidParts(ps: seq<Piece>, qs: seq<Piece>, i: nat)
    requires i < |ps| && i < |qs| && ps[..i] == qs[..i] && ps[i] != qs[i] && ps[i].kind != Blank && qs[i].kind != Blank
    ensures Solid(ps) != Solid(qs)
  {
    hide Solid;
    SolidFrom(ps, i);
    SolidFrom(qs, i);
    var n := |Solid(ps[..i])|;
    assert Solid(ps)[n] == ps[i] && Solid(qs)[n] == qs[i];
  }

  lemma SolidFrom(ps: seq<Piece>, i: nat)
    requires i < |ps| && ps[i].kind != Blank
    ensures Solid(ps) == Solid(ps[..i]) + ([ps[i]] + Solid(ps[i + 1..]))
  {
    assert ps == ps[..i] + ps[i..] && ps[i..][1..] == ps[i + 1..];
    SolidConcat(ps[..i], ps[i..]);
  }

  // ----- the texts before and behind the block -----

  /** Two characters decide what may follow. */
  lemma FollowsShift(ps: seq<Piece>, u: string, v: string, v': string)
    requires Follows(ps, u + v') && u != ""
    requires |u| > 1 || (ps != [] ==> ps[|ps| - 1].kind != Html && !IsLineComment(ps[|ps| - 1]))
    requires |u| > 1 || v == "" || v[0] == '?'
    ensures Follows(ps, u + v)
  {
    if ps != [] { LookShift(ps[|ps| - 1], u, v, v'); }
  }

  lemma LookShift(p: Piece, u: string, v: string, v': string)
    requires Look(p, u + v') && u != ""
    requires |u| > 1 || (p.kind != Html && !IsLineComment(p))
    requires |u| > 1 || v == "" || v[0] == '?'
    ensures Look(p, u + v)
  {
    var r, r' := u + v, u + v';
    assert r[0] == u[0] == r'[0];
    if |u| > 1 {
      assert r[1] == u[1] == r'[1];
    } else if v != "" {
      assert r[1] == v[0];
    }
  }

  /** The result of moving the block, cut before and behind it. */
  lemma MovedText(src: string, ps: seq<Piece>, a: nat, e: nat, t: nat, block: string, eol: string)
    requires Scan(src, false) == Ok(ps) && a <= e <= t <= |ps|
    ensures Off(ps, a) <= Off(ps, e) <= Off(ps, t) <= |src|
    ensures
      var base, pos := src[..Off(ps, a)] + src[Off(ps, e)..], Off(ps, t) - (Off(ps, e) - Off(ps, a));
      var x, u, w := Flatten(ps[..a]), Flatten(ps[e..t]), Flatten(ps[t..]);
      && base == x + (u + w) && pos == |x + u| <= |base|
      && AddBlock(base, pos, block, eol) == x + (u + (Lead(base, pos, eol) + block + eol + w))
  {
    hide Scan, Flatten, Lead;
    hide AddBlock;
    var x, u, w := Flatten(ps[..a]), Flatten(ps[e..t]), Flatten(ps[t..]);
    TextParts(src, ps, a, e, t);
    BlockAdded(x, u, w, block, eol);
  }

  lemma TextParts(src: string, ps: seq<Piece>, a: nat, e: nat, t: nat)
    requires Scan(src, false) == Ok(ps) && a <= e <= t <= |ps|
    ensures Off(ps, a) <= Off(ps, e) <= Off(ps, t) <= |src| && src[..Off(ps, a)] == Flatten(ps[..a])
    ensures src[Off(ps, e)..] == Flatten(ps[e..t]) + Flatten(ps[t..]) && Off(ps, t) - Off(ps, e) == |Flatten(ps[e..t])|
  {
    hide Scan, Flatten;
    TextBefore(src, ps, a);
    TextBehind(src, ps, e);
    TextBehind(src, ps, t);
    OffMonotone(ps, a, e);
    OffMonotone(ps, e, t);
    assert ps[e..] == ps[e..t] + ps[t..];
    FlattenConcat(ps[e..t], ps[t..]);
  }

  lemma TextBefore(src: string, ps: seq<Piece>, a: nat)
    requires Scan(src, false) == Ok(ps) && a <= |ps|
    ensures Off(ps, a) <= |src| && src[..Off(ps, a)] == Flatten(ps[..a])
  {
    hide Scan, Flatten;
    SplitScan(src, ps, a);
  }

  lemma BlockAdded(x: string, u: string, w: string, block: string, eol: string)
    ensures AddBlock(x + (u + w), |x + u|, block, eol) == x + (u + (Lead(x + (u + w), |x + u|, eol) + block + eol + w))
  {
    hide Lead;
    assert (x + (u + w))[..|x + u|] == x + u && (x + (u + w))[|x + u|..] == w;
  }

  // ----- the marker is no part of it -----

  /** What stood in front of a comment begins no comment when the comment is gone. */
  lemma NoComment(x: seq<Piece>, i: nat, r: string, r': string, q: Piece)
    requires i < |x| && Lexes(x, false, r) && |r| > 1 && r[..2] == "//"
    requires var head := x[i].text + Flatten(x[i + 1..]);
      && x[i].text != ""
      && Lex(head + r, ModeAfter(x[..i], false)) == Ok(x[i]) && Lex(head + r', ModeAfter(x[..i], false)) == Ok(q)
      && !Look(x[i], Flatten(x[i + 1..]) + r')
    ensures q.kind == Comment ==> q.text[..1] != "/"
  {
    hide Lex, Lexes, ModeAfter, Look, Flatten;
    var p, rest, m := x[i], x[i + 1..], ModeAfter(x[..i], false);
    var head := p.text + Flatten(rest);
    assert head + r == p.text + (Flatten(rest) + r) && head + r' == p.text + (Flatten(rest) + r');
    LexLook(p, m, Flatten(rest) + r);
    LexPrefix(head + r', m);
    if q.kind == Comment && q.text[0] == '/' {
      LexedIn(q, m, head + r');
      TailLexes(x, i, r);
      HeadLook(p, rest, r, r');
    }
  }

  /** Behind a slash that begins no comment nothing changes. */
  lemma HeadLook(p: Piece, rest: seq<Piece>, r: string, r': string)
    requires p.text != "" && Lex(p.text + (Flatten(rest) + r), true) == Ok(p) && Look(p, Flatten(rest) + r) && Lexes(rest, After(p, true), r)
    requires |r| > 1 && r[..2] == "//" && p.text[0] == '/'
    ensures Look(p, Flatten(rest) + r')
  {
    hide Lex, Lexes, Look, Flatten;
    if rest == [] {
      NothingFlat(rest);
      assert Flatten(rest) + r == r && Flatten(rest) + r' == r';
      SlashLook(p, r, r');
    } else {
      LookAcross(p, true, rest, r, r');
    }
  }

  lemma NothingFlat(ps: seq<Piece>)
    requires ps == []
    ensures Flatten(ps) == ""
  {
  }

  lemma LexPrefix(s: string, php: bool)
    requires s != "" && Lex(s, php).Ok?
    ensures Lex(s, php).value.text <= s && Lex(s, php).value.text != ""
  {
  }

  lemma TailLexes(x: seq<Piece>, i: nat, r: string)
    requires i < |x| && Lexes(x, false, r)
    ensures Lexes(x[i + 1..], After(x[i], ModeAfter(x[..i], false)), r)
  {
    hide Lex, Lexes, ModeAfter;
    assert x == x[..i + 1] + x[i + 1..] && x[..i + 1] == x[..i] + [x[i]];
    LexesConcat(x[..i + 1], x[i + 1..], false, r);
    ModeConcat(x[..i], [x[i]], false);
    ModeOne(x[i], ModeAfter(x[..i], false));
  }

  lemma SlashLook(p: Piece, r: string, r': string)
    requires p.text != "" && Lex(p.text + r, true) == Ok(p) && Look(p, r) && |r| > 1 && r[..2] == "//" && p.text[0] == '/'
    ensures Look(p, r')
  {
    var s := p.text + r;
    assert s[0] == p.text[0] && r[0] == r[..2][0];
    if |p.text| == 1 { assert s[1] == r[0]; }
  }

  // ----- the law -----

  /** A line break alone is all spaces, so other code stands behind it. */
  lemma CodeBehind(ps: seq<Piece>, b: nat, e: nat, t: nat)
    requires b < e <= t <= |ps| && !AllSpace(Flatten(ps[b + 1..t])) && forall i :: b < i < e ==> ps[i].kind == Blank && |ps[i].text| == 1 && IsBlank(ps[i].text[0])
    ensures Flatten(ps[e..t]) != ""
  {
    hide Flatten, AllSpace;
    assert ps[b + 1..t] == ps[b + 1..e] + ps[e..t];
    FlattenConcat(ps[b + 1..e], ps[e..t]);
    BlankTexts(ps[b + 1..e]);
    assert Flatten(ps[b + 1..e]) + "" == Flatten(ps[b + 1..e]);
  }

  lemma {:induction false} BlankTexts(ps: seq<Piece>)
    requires forall i :: 0 <= i < |ps| ==> |ps[i].text| == 1 && IsBlank(ps[i].text[0])
    ensures AllSpace(Flatten(ps))
  {
    if ps != [] { BlankTexts(ps[1..]); }
  }

  lemma BlankText(src: string, ps: seq<Piece>, i: nat)
    requires Scan(src, false) == Ok(ps) && i < |ps| && ps[i].kind == Blank
    ensures |ps[i].text| == 1 && IsBlank(ps[i].text[0])
  {
    hide Scan, Lex, Flatten, ModeAfter;
    LexedAt(src, ps, i);
    LexMode(Flatten(ps[i..]), ModeAfter(ps[..i], false));
  }

  /** The code before the block does not lex as it did when the code behind the
      block may not follow it. */
  lemma NoLongerLexes(src: string, ps: seq<Piece>, a: nat, u: string, w: string, l: string)
    requires Scan(src, false) == Ok(ps) && 0 < a < |ps| && ModeAfter(ps[..a], false) && "// " <= ps[a].text
    requires u != "" && (w == "" || w[0] == '?') && !Follows(ps[..a], u + w)
    ensures !Lexes(ps[..a], false, u + (l + w))
    ensures Lexes(ps[..a], false, Flatten(ps[a..])) && |Flatten(ps[a..])| > 1 && Flatten(ps[a..])[..2] == "//"
  {
    hide Scan, Lex, Lexes, Flatten, ModeAfter, Follows;
    SplitScan(src, ps, a);
    FlattenMarker(ps, a);
    BeforeMarker(src, ps, a);
    LastPieceAt(src, ps, a);
    if Lexes(ps[..a], false, u + (l + w)) {
      LexesFollows(ps[..a], false, u + (l + w));
      FollowsShift(ps[..a], u, w, l + w);
    }
  }

  /** If the code behind the block may not follow the code before it, the pieces of
      the application change. */
  lemma Glued(src: string, included: string, marker: string, qs: seq<Piece>, found: Markers)
    requires Parse(src).Ok? && FindMarkers(PiecesOf(src), marker).Ok?
    requires !Placed(PiecesOf(src), FindMarkers(PiecesOf(src), marker).value)
    requires PatchInclude(src, included, marker).Ok? && Scan(PatchInclude(src, included, marker).value, false) == Ok(qs) && FindMarkers(qs, marker) == Ok(found)
    ensures Solid(Outside(qs, found)) != Solid(Outside(PiecesOf(src), FindMarkers(PiecesOf(src), marker).value))
  {
    hide PatchInclude, Parse, Scan, Lex, Lexes, Flatten, ModeAfter, SectionEnd, StartMarker, EndMarker, FindMarkers, EOL, AddBlock, IncludeBlock, Follows, Solid, Look, Lead, Off, PastBreak, AllSpace, Remains;
    var ps, eol := PiecesOf(src), EOL(src);
    var m, t := FindMarkers(ps, marker).value, SectionEnd(ps);
    var a, b := m.a, m.b;
    ParsedPieces(src);
    EolTwo(src);
    SectionMode(src, ps);
    PatchOf(src, included, marker);
    RemainsIs(src, ps, b);
    var e := BehindPieces(src, ps, b, eol);
    BehindEnd(src, ps, b, e, t);
    TextBehind(src, ps, e);
    var block := IncludeBlock(included, marker, eol);
    MovedText(src, ps, a, e, t, block, eol);
    var base, pos := src[..Off(ps, a)] + src[Off(ps, e)..], Off(ps, t) - (Off(ps, e) - Off(ps, a));
    var x, u, w, l := ps[..a], Flatten(ps[e..t]), Flatten(ps[t..]), Lead(base, pos, eol) + block + eol;
    forall i | b < i < e
      ensures |ps[i].text| == 1 && IsBlank(ps[i].text[0])
    {
      BlankText(src, ps, i);
    }
    CodeBehind(ps, b, e, t);
    CommentMode(src, ps, a);
    MarkerStarts(marker);
    NonEmptyMode(x);
    CloseNext(src, ps, t);
    RestIs(ps, e, t);
    NoLongerLexes(src, ps, a, u, w, l);
    Differs(ps, m, u + (l + w), qs, found, marker);
  }

  lemma MarkerStarts(marker: string)
    ensures "// " <= StartMarker(marker)
  {
  }

  lemma RestIs(ps: seq<Piece>, e: nat, t: nat)
    requires e <= t <= |ps|
    ensures Flatten(ps[e..]) == Flatten(ps[e..t]) + Flatten(ps[t..])
  {
    assert ps[e..] == ps[e..t] + ps[t..];
    FlattenConcat(ps[e..t], ps[t..]);
  }

  lemma CloseNext(src: string, ps: seq<Piece>, t: nat)
    requires Scan(src, false) == Ok(ps) && t <= |ps| && (t < |ps| ==> ps[t].kind == Close)
    ensures Flatten(ps[t..]) == "" || Flatten(ps[t..])[0] == '?'
  {
    hide Scan, Lex, ModeAfter;
    if t < |ps| {
      LexedAt(src, ps, t);
      LexMode(Flatten(ps[t..]), ModeAfter(ps[..t], false));
    }
  }

  /** A piece of the application, in front of the block, is another one. */
  lemma Differs(ps: seq<Piece>, m: Markers, r: string, qs: seq<Piece>, found: Markers, marker: string)
    requires m.Marked? && FindMarkers(ps, marker) == Ok(m) && FindMarkers(qs, marker) == Ok(found)
    requires var x, was := ps[..m.a], Flatten(ps[m.a..]);
      && Lexes(x, false, was) && |was| > 1 && was[..2] == "//" && !Lexes(x, false, r) && Scan(Flatten(x) + r, false) == Ok(qs)
    ensures Solid(Outside(qs, found)) != Solid(Outside(ps, m))
  {
    hide Scan, Lex, Lexes, Flatten, ModeAfter, StartMarker, EndMarker, FindMarkers, Solid, Look, Outside;
    var x, was := ps[..m.a], Flatten(ps[m.a..]);
    var i := Parting(x, was, r, qs);
    NoComment(x, i, was, r, qs[i]);
    var us, vs := Outside(ps, m), Outside(qs, found);
    OutsideHead(ps, m, i);
    if found.Marked? {
      assert qs[found.a] == Marker(StartMarker(marker));
      MarkerStarts(marker);
      if found.a <= i { NotBefore(ps, m, marker, if found.a < i then found.a else 0, qs[found.a]); }
      assert found.a > i;
    }
    OutsideHead(qs, found, i);
    assert ps[..i] == x[..i];
    SolidParts(us, vs, i);
  }

  lemma OutsideHead(ps: seq<Piece>, m: Markers, i: nat)
    requires i < |ps| && (m.Marked? ==> i < m.a <= m.b < |ps|)
    ensures i < |Outside(ps, m)| && Outside(ps, m)[..i] == ps[..i] && Outside(ps, m)[i] == ps[i]
  {
  }

  lemma NotBefore(ps: seq<Piece>, m: Markers, marker: string, k: nat, p: Piece)
    requires m.Marked? && FindMarkers(ps, marker) == Ok(m) && k < m.a && p == Marker(StartMarker(marker))
    ensures ps[k] != p
  {
    FirstIs(ps, p);
  }

  /** The run keeps the application's code, in order and uncut, exactly when the
      brackets are balanced without the old block and, unless the block is at the end
      already, the code behind it may follow the code before it. */
  lemma IncludeKeeps(src: string, included: string, marker: string)
    requires ValidMarker(marker) && Parse(src).Ok? && FindMarkers(PiecesOf(src), marker).Ok?
    ensures PatchInclude(src, included, marker).Ok?
    ensures Application(PatchInclude(src, included, marker).value, marker) == Application(src, marker) <==> Ready(src, marker)
  {
    hide PatchInclude, Parse, FindMarkers, Solid, Outside, Bare, Balanced, Placed;
    PatchOf(src, included, marker);
    var out := PatchInclude(src, included, marker).value;
    var ps := PiecesOf(src);
    if Ready(src, marker) {
      IncludeManaged(src, included, marker);
    } else if Application(out, marker) == Application(src, marker) {
      ParsedPieces(out);
      if Placed(ps, FindMarkers(ps, marker).value) {
        IncludeParses(src, included, marker);
      } else {
        Glued(src, included, marker, PiecesOf(out), FindMarkers(PiecesOf(out), marker).value);
      }
    }
  }

  // ----- where it does not -----

  /** A word stands right in front of an old block, and another one behind it. */
  function Joined(marker: string): string {
    "<?php" + (" " + ("a" + (StartMarker(marker) + ("\n" + (EndMarker(marker) + ("\n" + "b"))))))
  }

  function JoinedHead(): seq<Piece> { [Piece(PhpLexer.Open, "<?php"), Piece(Blank, " "), Word("a")] }

  function JoinedTail(): seq<Piece> { [Piece(Blank, "\n"), Word("b")] }

  function JoinedPieces(marker: string): seq<Piece> {
    JoinedHead() + ([Marker(StartMarker(marker))] + Blanks("\n") + [Marker(EndMarker(marker))]) + JoinedTail()
  }

  lemma JoinedScan(marker: string)
    requires ValidMarker(marker)
    ensures Scan(Joined(marker), false) == Ok(JoinedPieces(marker))
  {
    hide Scan, Reads, StartMarker, EndMarker, Blanks;
    MarkerText(marker);
    var s, e := StartMarker(marker), EndMarker(marker);
    ScanNothing(true);
    ReadsWord("b", "");
    ScanReads([Word("b")], "b", "", []);
    assert "b" + "" == "b";
    ReadsBlanks("\n", "b");
    ScanReads(Blanks("\n"), "\n", "b", [Word("b")] + []);
    ReadsMarker(e, "\n" + "b");
    ScanReads([Marker(e)], e, "\n" + "b", Blanks("\n") + ([Word("b")] + []));
    var r1 := e + ("\n" + "b");
    ReadsBlanks("\n", r1);
    ScanReads(Blanks("\n"), "\n", r1, [Marker(e)] + (Blanks("\n") + ([Word("b")] + [])));
    ReadsMarker(s, "\n" + r1);
    ScanReads([Marker(s)], s, "\n" + r1, Blanks("\n") + ([Marker(e)] + (Blanks("\n") + ([Word("b")] + []))));
    var r2 := s + ("\n" + r1);
    assert r2[0] == s[0];
    ReadsWord("a", r2);
    ScanReads([Word("a")], "a", r2, [Marker(s)] + (Blanks("\n") + ([Marker(e)] + (Blanks("\n") + ([Word("b")] + [])))));
    ReadsBlanks(" ", "a" + r2);
    var rest := [Word("a")] + ([Marker(s)] + (Blanks("\n") + ([Marker(e)] + (Blanks("\n") + ([Word("b")] + [])))));
    ScanReads(Blanks(" "), " ", "a" + r2, rest);
    ScanOpen(" " + ("a" + r2), Blanks(" ") + rest);
    assert Blanks(" ") == [Piece(Blank, " ")] && Blanks("\n") == [Piece(Blank, "\n")];
    assert [Piece(PhpLexer.Open, "<?php")] + (Blanks(" ") + rest) == JoinedPieces(marker);
  }

  lemma JoinedFound(marker: string)
    requires ValidMarker(marker)
    ensures FindMarkers(JoinedPieces(marker), marker) == Ok(Marked(3, 5))
    ensures Bare(JoinedPieces(marker)) != [] && Balanced(Bare(JoinedPieces(marker)))
    ensures Balanced(Bare(Outside(JoinedPieces(marker), Marked(3, 5))))
  {
    hide StartMarker, EndMarker, CountPiece, Bare, Balanced, FindMarkers;
    var x, y, ps := JoinedHead(), JoinedTail(), JoinedPieces(marker);
    MarkerText(marker);
    NoComments(x + y, Marker(StartMarker(marker)));
    NoComments(x + y, Marker(EndMarker(marker)));
    NoComments(Blanks("\n"), Marker(StartMarker(marker)));
    NoComments(Blanks("\n"), Marker(EndMarker(marker)));
    FoundBetween(x, Blanks("\n"), y, marker);
    assert Outside(ps, Marked(3, 5)) == x + y;
    JoinedBare(ps, x + y);
    JoinedBalanced();
  }

  lemma JoinedBare(ps: seq<Piece>, qs: seq<Piece>)
    requires |ps| == 8 && qs == JoinedHead() + JoinedTail() && ps[..3] == JoinedHead() && ps[6..] == JoinedTail()
    requires forall i :: 3 <= i < 6 ==> !IsToken(ps[i])
    ensures Bare(ps) == Bare(qs) == [Lexeme([], Piece(PhpLexer.Open, "<?php")), Lexeme([], Word("a")), Lexeme([], Word("b"))]
  {
    assert ps == ps[..3] + ([ps[3]] + ([ps[4]] + [ps[5]])) + ps[6..];
    BareConcat(ps[..3] + ([ps[3]] + ([ps[4]] + [ps[5]])), ps[6..]);
    BareConcat(ps[..3], [ps[3]] + ([ps[4]] + [ps[5]]));
    BareConcat([ps[3]], [ps[4]] + [ps[5]]);
    BareConcat([ps[4]], [ps[5]]);
    BareConcat(ps[..3], ps[6..]);
    HeadBare();
  }

  lemma HeadBare()
    ensures Bare(JoinedHead()) == [Lexeme([], Piece(PhpLexer.Open, "<?php")), Lexeme([], Word("a"))] && Bare(JoinedTail()) == [Lexeme([], Word("b"))]
  {
    assert JoinedHead()[1..] == [Piece(Blank, " "), Word("a")] && [Piece(Blank, " "), Word("a")][1..] == [Word("a")];
    assert JoinedTail()[1..] == [Word("b")];
  }

  lemma JoinedBalanced()
    ensures Balanced([Lexeme([], Piece(PhpLexer.Open, "<?php")), Lexeme([], Word("a")), Lexeme([], Word("b"))])
  {
  }

  lemma JoinedEol(marker: string)
    requires ValidMarker(marker)
    ensures EOL(Joined(marker)) == "\n"
  {
    var src := Joined(marker);
    MarkerText(marker);
    hide StartMarker, EndMarker;
    assert forall i :: 0 <= i < |src| ==> src[i] != '\r';
    IndexFirst(src, "\r\n");
  }

  lemma JoinedUnplaced(marker: string)
    requires ValidMarker(marker)
    ensures !Placed(JoinedPieces(marker), Marked(3, 5))
  {
    hide StartMarker, EndMarker, Scan, Flatten, EOL, SectionEnd;
    var ps := JoinedPieces(marker);
    JoinedScan(marker);
    JoinedEol(marker);
    ScanLexes(Joined(marker), false);
    assert ps[6..] == JoinedTail() && ps[6..8] == JoinedTail() && ps[..3] == JoinedHead();
    JoinedMode(ps);
    SectionModeEnd(ps);
    TailText();
    assert "\nb"[1] == 'b' && !IsSpace('b');
    assert Remains(ps, 5) == "b";
  }

  lemma JoinedMode(ps: seq<Piece>)
    requires |ps| == 8 && ps[0].kind == PhpLexer.Open && forall i :: 0 < i < 8 ==> !IsTag(ps[i])
    ensures ModeAfter(ps, false)
  {
    NoTagMode(ps[1..], true);
  }

  lemma TailText()
    ensures Flatten(JoinedTail()) == "\nb"
  {
    assert JoinedTail()[1..] == [Word("b")] && [Word("b")][1..] == [];
  }

  /** When the block moves, the two words become one. */
  lemma JoinedLost(included: string, marker: string)
    requires ValidMarker(marker)
    ensures var src := Joined(marker);
      && Parse(src).Ok? && FindMarkers(PiecesOf(src), marker).Ok?
      && Balanced(Bare(Outside(PiecesOf(src), FindMarkers(PiecesOf(src), marker).value)))
      && PatchInclude(src, included, marker).Ok? && Application(PatchInclude(src, included, marker).value, marker) != Application(src, marker)
  {
    hide Parse, Scan, FindMarkers, Bare, Balanced, PatchInclude, Application, Placed, JoinedPieces, Outside;
    var src := Joined(marker);
    JoinedScan(marker);
    JoinedFound(marker);
    JoinedUnplaced(marker);
    ParsePieces(src, JoinedPieces(marker));
    IncludeKeeps(src, included, marker);
  }
}
