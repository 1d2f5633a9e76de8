/** When a second run of patchPHPInclude changes nothing.  The block is written
    with the line break that the file is taken to use, so the question is whether a
    run turns a file without CRLF into one with CRLF. */
module PhpIncludeBreaks {
  import opened Text
  import opened PhpLexer
  import opened PhpTokens
  import opened PhpLiterals
  import opened PhpSplice
  import opened PhpArrayPatch
  import opened PhpIncludeBlock
  import opened PhpInclude
  import opened PhpIncludeLaws
  import opened PhpIncludeRuns

  // ----- carriage returns -----

  predicate Without(s: string, c: char) { forall i :: 0 <= i < |s| ==> s[i] != c }

  lemma NoCrlf(s: string)
    requires Without(s, '\r')
    ensures EOL(s) == "\n"
  {
    IndexFirst(s, "\r\n");
  }

  lemma HasCrlf(s: string, i: nat)
    requires At(s, "\r\n", i)
    ensures EOL(s) == "\r\n"
  {
    IndexFirst(s, "\r\n");
  }

  lemma {:induction false} EscapedWithout(s: string)
    requires Without(s, '\r')
    ensures Without(Escaped(s), '\r')
  {
    if s != "" { EscapedWithout(s[1..]); }
  }

  lemma WithoutConcat(a: string, b: string, c: char)
    ensures Without(a + b, c) <==> Without(a, c) && Without(b, c)
  {
    if Without(a + b, c) {
      assert forall i :: 0 <= i < |a| ==> a[i] == (a + b)[i];
      assert forall i :: 0 <= i < |b| ==> b[i] == (a + b)[|a| + i];
    }
  }

  // ----- CRLF -----

  predicate CrlfAt(s: string, i: int) { 0 <= i && i + 1 < |s| && s[i] == '\r' && s[i + 1] == '\n' }

  predicate Crlf(s: string) { exists i :: 0 <= i < |s| && CrlfAt(s, i) }

  predicate EndsReturn(s: string) { s != "" && s[|s| - 1] == '\r' }

  predicate StartsFeed(s: string) { s != "" && s[0] == '\n' }

  /** The line break of a file is CRLF exactly when it has one. */
  lemma EolCrlf(s: string)
    ensures EOL(s) == "\r\n" <==> Crlf(s)
    ensures EOL(s) == "\n" <==> !Crlf(s)
  {
    var n := Index(s, "\r\n");
    if n >= 0 {
      assert s[n..n + 2] == "\r\n";
      assert s[n] == s[n..n + 2][0] && s[n + 1] == s[n..n + 2][1];
      assert CrlfAt(s, n);
    } else if i :| CrlfAt(s, i) {
      HasCrlf(s, i);
    }
  }

  lemma CrlfConcat(a: string, b: string)
    ensures Crlf(a + b) <==> Crlf(a) || Crlf(b) || (EndsReturn(a) && StartsFeed(b))
  {
    if i :| CrlfAt(a + b, i) {
      assert CrlfAt(a, i) || CrlfAt(b, i - |a|) || i + 1 == |a|;
    }
    if i :| CrlfAt(a, i) { assert CrlfAt(a + b, i); }
    if i :| CrlfAt(b, i) { assert CrlfAt(a + b, |a| + i); }
    if EndsReturn(a) && StartsFeed(b) { assert CrlfAt(a + b, |a| - 1); }
  }

  lemma EndsConcat(a: string, b: string)
    ensures EndsReturn(a + b) <==> if b == "" then EndsReturn(a) else EndsReturn(b)
    ensures StartsFeed(a + b) <==> if a == "" then StartsFeed(b) else StartsFeed(a)
  {
  }

  lemma WithoutCrlf(s: string)
    requires Without(s, '\r')
    ensures !Crlf(s) && !EndsReturn(s)
  {
  }

  /** A CRLF between text without carriage returns can only be in the middle. */
  lemma CrlfFramed(a: string, m: string, b: string)
    requires Without(a, '\r') && Without(b, '\r') && (StartsFeed(b) ==> !EndsReturn(m))
    ensures Crlf(a + (m + b)) <==> Crlf(m)
  {
    hide Crlf, Without;
    WithoutCrlf(a);
    WithoutCrlf(b);
    CrlfConcat(a, m + b);
    CrlfConcat(m, b);
  }

  lemma {:induction false} EscapedCrlf(s: string)
    ensures Crlf(Escaped(s)) <==> Crlf(s)
    ensures StartsFeed(Escaped(s)) <==> StartsFeed(s)
  {
    if s != "" {
      var c, t := s[0], s[1..];
      EscapedCrlf(t);
      var e := if c == '\\' then "\\\\" else if c == '\'' then "\\'" else [c];
      assert s == [c] + t && Escaped(s) == e + Escaped(t);
      assert !Crlf([c]) && !Crlf(e) && (EndsReturn(e) <==> EndsReturn([c]));
      CrlfConcat([c], t);
      CrlfConcat(e, Escaped(t));
    }
  }

  /** A quoted text has a CRLF exactly when the text has one. */
  lemma QuotedCrlf(value: string)
    ensures Crlf(SingleQuoted(value)) <==> Crlf(value)
    ensures !EndsReturn(SingleQuoted(value))
  {
    hide Crlf, Escaped;
    QuotedIs(value);
    EscapedCrlf(value);
    var e := Escaped(value);
    assert "'" + e + "'" == "'" + (e + "'");
    Signs();
    CrlfFramed("'", e, "'");
  }

  lemma LinesCrlf(q: string)
    ensures Crlf(Line2(q)) <==> Crlf(q)
    ensures Crlf(Line3(q)) <==> Crlf(q)
    ensures !EndsReturn(Line2(q)) && !EndsReturn(Line3(q))
  {
    hide Crlf;
    var h2, h3 := "if (file_exists(__DIR__ . ", "  include __DIR__ . ";
    assert h2 + q + ")) {" == h2 + (q + ")) {");
    assert h3 + q + ";" == h3 + (q + ";");
    CrlfFramed(h2, q, ")) {");
    CrlfFramed(h3, q, ";");
  }

  /** Lines joined by line feeds. */
  lemma CrlfLine(a: string, b: string)
    requires !EndsReturn(a) && !EndsReturn(b)
    ensures Crlf(a + ("\n" + b)) <==> Crlf(a) || Crlf(b)
    ensures !EndsReturn(a + ("\n" + b))
  {
    hide Crlf;
    Signs();
    WithoutCrlf("\n");
    CrlfConcat("\n", b);
    CrlfConcat(a, "\n" + b);
    EndsConcat("\n", b);
    EndsConcat(a, "\n" + b);
  }

  /** Written with line feeds, the block has a CRLF exactly when the file name does. */
  lemma BlockFeeds(included: string, marker: string)
    requires ValidMarker(marker)
    ensures Crlf(IncludeBlock(included, marker, "\n")) <==> Crlf(included)
    ensures !EndsReturn(IncludeBlock(included, marker, "\n"))
  {
    hide Crlf, EndsReturn, SingleQuoted, Line2, Line3, StartMarker, EndMarker, Without;
    var value := "/" + included;
    var q, sm, em := SingleQuoted(value), StartMarker(marker), EndMarker(marker);
    JoinFive(sm, Line2(q), Line3(q), em, "\n");
    Signs();
    WithoutCrlf("/");
    CrlfConcat("/", included);
    QuotedCrlf(value);
    LinesCrlf(q);
    MarkersWithout(marker);
    WithoutCrlf(sm);
    WithoutCrlf(em);
    WithoutCrlf("}");
    CrlfLine("}", em);
    var s1 := "}" + ("\n" + em);
    CrlfLine(Line3(q), s1);
    var s2 := Line3(q) + ("\n" + s1);
    CrlfLine(Line2(q), s2);
    var s3 := Line2(q) + ("\n" + s2);
    CrlfLine(sm, s3);
  }

  // ----- what a run adds -----

  /** Adding the block to a file makes a CRLF that was not there exactly when the
      block has one or a carriage return stands before it. */
  lemma AddCrlf(src: string, pos: nat, block: string)
    requires pos <= |src| && block != "" && !StartsFeed(block) && !EndsReturn(block)
    ensures Crlf(AddBlock(src, pos, block, "\n")) <==> Crlf(src) || Crlf(block) || EndsReturn(src[..pos])
  {
    hide Crlf;
    var a, b, lead := src[..pos], src[pos..], Lead(src, pos, "\n");
    assert src == a + b;
    CrlfConcat(a, b);
    var mid := lead + block + "\n";
    Signs();
    NothingWithout();
    WithoutCrlf(lead);
    WithoutCrlf("\n");
    CrlfConcat(lead, block);
    CrlfConcat(lead + block, "\n");
    CrlfConcat(a, mid);
    CrlfConcat(a + mid, b);
    EndsConcat(lead, block);
    EndsConcat(lead + block, "\n");
    EndsConcat(a, mid);
    assert EndsReturn(a) ==> lead == "\n";
  }

  lemma ReplaceCrlf(a: string, block: string, b: string)
    requires block != "" && !StartsFeed(block) && !EndsReturn(block)
    ensures Crlf(a + block + b) <==> Crlf(a) || Crlf(block) || Crlf(b)
  {
    hide Crlf;
    CrlfConcat(a, block);
    CrlfConcat(a + block, b);
    EndsConcat(a, block);
  }

  /** A run makes the first CRLF of a file: the name of the included file has one, a
      carriage return stands where the block goes, or one meets a line feed where the
      old block is taken out. */
  predicate GainsCrlf(src: string, included: string, marker: string)
    requires Ready(src, marker)
  {
    var ps := PiecesOf(src);
    OffBounds(src, Parse(src).value, SectionEnd(ps));
    var before := src[..Off(ps, SectionEnd(ps))];
    || Crlf(included)
    || match FindMarkers(ps, marker).value
       case NoMarkers => EndsReturn(before)
       case Marked(a, b) =>
         MarkedBounds(src, Parse(src).value, a, b);
         var start, end := Off(ps, a), Off(ps, b + 1);
         && !AllSpace(before[end..])
         && (EndsReturn(before) || (EndsReturn(src[..start]) && StartsFeed(src[PastBreak(src, end, "\n")..])))
  }

  lemma SlicesCrlf(s: string, a: nat, b: nat)
    requires a <= b <= |s| && !Crlf(s)
    ensures !Crlf(s[..a]) && !Crlf(s[b..])
  {
    hide Crlf;
    assert s == s[..a] + s[a..] && s == s[..b] + s[b..];
    CrlfConcat(s[..a], s[a..]);
    CrlfConcat(s[..b], s[b..]);
  }

  lemma MoveCrlf(src: string, start: nat, end: nat, position: nat, block: string)
    requires start <= end <= position <= |src| && !Crlf(src) && !AllSpace(src[end..position])
    requires block != "" && !StartsFeed(block) && !EndsReturn(block)
    ensures start <= PastBreak(src, end, "\n") <= position
    ensures var end' := PastBreak(src, end, "\n");
      Crlf(AddBlock(src[..start] + src[end'..], position - (end' - start), block, "\n")) <==> Crlf(block) || EndsReturn(src[..position]) || (EndsReturn(src[..start]) && StartsFeed(src[end'..]))
  {
    hide Crlf, AddBlock, AllSpace;
    PastBreakBounds(src, end, position, "\n");
    var end' := PastBreak(src, end, "\n");
    PastBreakBefore(src, end, position);
    SlicesCrlf(src, start, end');
    var base, pos := src[..start] + src[end'..], position - (end' - start);
    CrlfConcat(src[..start], src[end'..]);
    AddCrlf(base, pos, block);
    assert base[pos - 1] == src[position - 1];
  }

  lemma PastBreakBefore(src: string, end: nat, position: nat)
    requires end <= position <= |src| && !AllSpace(src[end..position])
    ensures PastBreak(src, end, "\n") < position
  {
  }

  lemma BlockEnds(included: string, marker: string)
    ensures var t := IncludeBlock(included, marker, "\n"); t != "" && !StartsFeed(t)
  {
  }

  lemma PatchCrlf(src: string, included: string, marker: string)
    requires ValidMarker(marker) && Ready(src, marker) && PatchInclude(src, included, marker).Ok? && !Crlf(src)
    ensures Crlf(PatchInclude(src, included, marker).value) <==> GainsCrlf(src, included, marker)
  {
    hide Parse, Flatten, FindMarkers, SectionEnd, EOL, IncludeBlock, Crlf, AddBlock, PastBreak, AllSpace, EndsReturn, StartsFeed, Movable, Off;
    EolCrlf(src);
    BlockFeeds(included, marker);
    BlockEnds(included, marker);
    var block := IncludeBlock(included, marker, "\n");
    var d := Parse(src).value;
    var ps := AllPieces(d);
    OffBounds(src, d, SectionEnd(ps));
    var position := Off(ps, SectionEnd(ps));
    match FindMarkers(ps, marker)
    case Ok(NoMarkers) =>
      AddCrlf(src, position, block);
    case Ok(Marked(a, b)) =>
      MarkedBounds(src, d, a, b);
      var start, end := Off(ps, a), Off(ps, b + 1);
      assert src[..position][end..] == src[end..position];
      if AllSpace(src[end..position]) {
        SlicesCrlf(src, start, end);
        ReplaceCrlf(src[..start], block, src[end..]);
      } else {
        MoveCrlf(src, start, end, position, block);
      }
  }

  /** A run keeps the line break of the file exactly when the file uses CRLF or
      gains none. */
  lemma EolStays(src: string, included: string, marker: string)
    requires ValidMarker(marker) && Ready(src, marker) && PatchInclude(src, included, marker).Ok?
    ensures EOL(PatchInclude(src, included, marker).value) == EOL(src) <==> EOL(src) == "\r\n" || !GainsCrlf(src, included, marker)
  {
    hide PatchInclude, IncludeBlock, EOL, Managed, BlockOf, Application, Ready, Crlf, GainsCrlf;
    var out := PatchInclude(src, included, marker).value;
    EolCrlf(src);
    EolCrlf(out);
    EolTwo(src);
    EolTwo(out);
    if EOL(src) == "\r\n" {
      BlockCrlf(included, marker);
      IncludeManaged(src, included, marker);
      BlockInside(out, marker);
      Inside(out, BlockStart(out, marker), IncludeBlock(included, marker, "\r\n"), |StartMarker(marker)|);
    } else {
      PatchCrlf(src, included, marker);
    }
  }

  /** The patch is idempotent on a file exactly when the file uses CRLF or gains no
      CRLF by the first run. */
  lemma IncludeIdempotent(src: string, included: string, marker: string)
    requires ValidMarker(marker) && Ready(src, marker)
    ensures PatchInclude(src, included, marker).Ok?
    ensures PatchInclude(PatchInclude(src, included, marker).value, included, marker) == PatchInclude(src, included, marker) <==> EOL(src) == "\r\n" || !GainsCrlf(src, included, marker)
  {
    hide PatchInclude, Ready, EOL, GainsCrlf;
    IncludeAgain(src, included, marker);
    EolStays(src, included, marker);
  }

  /** In particular on files without carriage returns. */
  lemma NoReturnGains(src: string, included: string, marker: string)
    requires Ready(src, marker) && Without(src, '\r') && Without(included, '\r')
    ensures !GainsCrlf(src, included, marker)
  {
    hide Parse, Flatten, FindMarkers, SectionEnd, PastBreak, AllSpace, Movable, Off;
    WithoutCrlf(included);
    var ps := PiecesOf(src);
    OffBounds(src, Parse(src).value, SectionEnd(ps));
    if FindMarkers(ps, marker).value.Marked? {
      var m := FindMarkers(ps, marker).value;
      MarkedBounds(src, Parse(src).value, m.a, m.b);
    }
  }

  // ----- the text of the block -----

  /** The block uses the line break it is given, and no other. */
  lemma BlockCrlf(included: string, marker: string)
    ensures At(IncludeBlock(included, marker, "\r\n"), "\r\n", |StartMarker(marker)|)
  {
  }

  lemma Inside(s: string, a: nat, t: string, i: nat)
    requires a + |t| <= |s| && s[a..a + |t|] == t && At(t, "\r\n", i)
    ensures EOL(s) == "\r\n"
  {
    hide EOL;
    assert s[a + i] == s[a..a + |t|][i] && s[a + i + 1] == s[a..a + |t|][i + 1];
    HasCrlf(s, a + i);
  }

  function BlockStart(src: string, marker: string): nat
    requires Managed(src, marker)
  {
    Off(PiecesOf(src), FindMarkers(PiecesOf(src), marker).value.a)
  }

  lemma BlockInside(src: string, marker: string)
    requires Managed(src, marker)
    ensures var a, t := BlockStart(src, marker), BlockOf(src, marker);
      a + |t| <= |src| && src[a..a + |t|] == t
  {
    hide Parse, Flatten, FindMarkers, SectionEnd;
    var ps := PiecesOf(src);
    var m := FindMarkers(ps, marker).value;
    OffMonotone(ps, m.a, m.b + 1);
    OffBounds(src, Parse(src).value, m.b + 1);
    OffBounds(src, Parse(src).value, m.a);
  }

  lemma BlockLf(included: string, marker: string)
    requires ValidMarker(marker) && Without(included, '\r')
    ensures Without(IncludeBlock(included, marker, "\n"), '\r')
  {
    hide SingleQuoted, Line2, Line3, StartMarker, EndMarker, Without;
    var value := "/" + included;
    var q, sm, em := SingleQuoted(value), StartMarker(marker), EndMarker(marker);
    JoinFive(sm, Line2(q), Line3(q), em, "\n");
    Signs();
    WithoutConcat("/", included, '\r');
    EscapedWithout(value);
    QuotedIs(value);
    WithoutConcat("'" + Escaped(value), "'", '\r');
    WithoutConcat("'", Escaped(value), '\r');
    LinesWithout(q);
    MarkersWithout(marker);
    var s1 := "\n" + em;
    WithoutConcat("\n", em, '\r');
    WithoutConcat("}", s1, '\r');
    WithoutConcat("\n", "}" + s1, '\r');
    var s2 := "\n" + ("}" + s1);
    WithoutConcat(Line3(q), s2, '\r');
    WithoutConcat("\n", Line3(q) + s2, '\r');
    var s3 := "\n" + (Line3(q) + s2);
    WithoutConcat(Line2(q), s3, '\r');
    WithoutConcat("\n", Line2(q) + s3, '\r');
    WithoutConcat(sm, "\n" + (Line2(q) + s3), '\r');
  }

  lemma Signs()
    ensures Without("\n", '\r') && Without("}", '\r') && Without("'", '\r') && Without("/", '\r')
  {
  }

  lemma MarkersWithout(marker: string)
    requires ValidMarker(marker)
    ensures Without(StartMarker(marker), '\r') && Without(EndMarker(marker), '\r')
  {
  }

  lemma QuotedIs(value: string)
    ensures SingleQuoted(value) == "'" + Escaped(value) + "'"
  {
    EscapedIs(value);
  }

  lemma LinesWithout(q: string)
    requires Without(q, '\r')
    ensures Without(Line2(q), '\r') && Without(Line3(q), '\r')
  {
  }

  lemma NoReturn(src: string, included: string, marker: string)
    requires PatchInclude(src, included, marker).Ok? && ValidMarker(marker)
    requires EOL(src) == "\n" && Without(src, '\r') && Without(included, '\r')
    ensures Without(PatchInclude(src, included, marker).value, '\r')
  {
    hide Parse, Flatten, FindMarkers, SectionEnd, EOL, IncludeBlock, Without, AddBlock, PastBreak;
    BlockLf(included, marker);
    var block := IncludeBlock(included, marker, "\n");
    var d := Parse(src).value;
    var ps := AllPieces(d);
    match FindMarkers(ps, marker)
    case Ok(NoMarkers) =>
      OffBounds(src, d, SectionEnd(ps));
      AddWithout(src, Off(ps, SectionEnd(ps)), block);
    case Ok(Marked(a, b)) =>
      MarkedBounds(src, d, a, b);
      var start, end, position := Off(ps, a), Off(ps, b + 1), Off(ps, SectionEnd(ps));
      if !AllSpace(src[end..position]) {
        PastBreakBounds(src, end, position, "\n");
        var end' := PastBreak(src, end, "\n");
        Parts(src, start, end');
        WithoutConcat(src[..start], src[end'..], '\r');
        AddWithout(src[..start] + src[end'..], position - (end' - start), block);
      } else {
        Parts(src, start, end);
        WithoutConcat(src[..start], block, '\r');
        WithoutConcat(src[..start] + block, src[end..], '\r');
      }
  }

  lemma Parts(s: string, a: nat, b: nat)
    requires a <= |s| && b <= |s| && Without(s, '\r')
    ensures Without(s[..a], '\r') && Without(s[b..], '\r')
  {
  }

  lemma AddWithout(src: string, pos: nat, block: string)
    requires pos <= |src| && Without(src, '\r') && Without(block, '\r')
    ensures Without(AddBlock(src, pos, block, "\n"), '\r')
  {
  }

  lemma NothingWithout()
    ensures Without("", '\r')
  {
  }

  /** A lone carriage return before the insertion point: the line feed of the block
      turns it into a CRLF, and the second run rewrites the block. */
  lemma LoneReturn(included: string, marker: string)
    requires ValidMarker(marker)
    ensures var src := "<?php\r";
      && PatchInclude(src, included, marker).Ok?
      && var out := PatchInclude(src, included, marker).value;
        PatchInclude(out, included, marker) != Ok(out)
  {
    hide IncludeBlock, PatchInclude, Bare, Balanced, Solid, EOL;
    var src := "<?php\r";
    LoneScan(src);
    IncludeAgain(src, included, marker);
    LoneOut(src, included, marker);
  }

  function LonePieces(): seq<Piece> { [Piece(Open, "<?php"), Piece(Blank, "\r")] }

  lemma LonePhp()
    ensures Scan("\r", true) == Ok([Piece(Blank, "\r")])
  {
    hide Scan;
    assert "\r"[..1] == "\r" && "\r"[1..] == "";
    assert Lex("\r", true) == Ok(Piece(Blank, "\r"));
    ScanNothing(true);
    ScanStep("\r", true, Piece(Blank, "\r"));
    assert [Piece(Blank, "\r")] + [] == [Piece(Blank, "\r")];
  }

  lemma LoneOpen(src: string)
    requires src == "<?php\r"
    ensures Scan(src, false) == Ok(LonePieces())
  {
    hide Scan;
    LonePhp();
    ScanOpen("\r", [Piece(Blank, "\r")]);
    assert "<?php" + "\r" == src && [Piece(Open, "<?php")] + [Piece(Blank, "\r")] == LonePieces();
  }

  lemma LoneMarkers(marker: string)
    ensures FindMarkers(LonePieces(), marker) == Ok(NoMarkers)
  {
    hide CountPiece, FirstPiece;
    var ps := LonePieces();
    var s, e := Marker(StartMarker(marker)), Marker(EndMarker(marker));
    NoComments(ps, s);
    NoComments(ps, e);
    FirstAt(ps, s);
    FirstAt(ps, e);
  }

  lemma LoneScan(src: string)
    requires src == "<?php\r"
    ensures Scan(src, false) == Ok(LonePieces()) && EOL(src) == "\n"
    ensures forall marker :: Ready(src, marker) && FindMarkers(PiecesOf(src), marker) == Ok(NoMarkers)
  {
    hide Parse, Bare, Balanced, FindMarkers, Scan, LonePieces;
    LoneOpen(src);
    IndexFirst(src, "\r\n");
    LoneBalanced(LonePieces());
    ParsePieces(src, LonePieces());
    forall marker
      ensures FindMarkers(LonePieces(), marker) == Ok(NoMarkers)
    {
      LoneMarkers(marker);
    }
  }

  lemma LoneBalanced(ps: seq<Piece>)
    requires ps == LonePieces()
    ensures Bare(ps) != [] && Balanced(Bare(ps))
  {
  }

  lemma LoneOut(src: string, included: string, marker: string)
    requires src == "<?php\r" && Parse(src).Ok? && FindMarkers(PiecesOf(src), marker) == Ok(NoMarkers)
    requires Scan(src, false) == Ok(LonePieces()) && EOL(src) == "\n"
    ensures PatchInclude(src, included, marker).Ok? && EOL(PatchInclude(src, included, marker).value) == "\r\n"
  {
    hide IncludeBlock, Parse, Scan, EOL, FindMarkers, Flatten;
    ParsedPieces(src);
    var ps := PiecesOf(src);
    assert ps[..1] == [ps[0]];
    assert SectionEnd(ps[..1]) == 1;
    assert SectionEnd(ps) == 2 && ps[..2] == ps;
    ParseScan(src);
    assert Off(ps, 2) == 6;
    var out := PatchInclude(src, included, marker).value;
    assert out[5] == '\r' && out[6] == '\n';
    HasCrlf(out, 5);
  }
}
