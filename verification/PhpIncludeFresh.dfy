/** The file that patchPHPInclude makes of an empty PHP file, line by line. */
module PhpIncludeFresh {
  import opened Text
  import opened PhpLexer
  import opened PhpTokens
  import opened PhpLiterals
  import opened PhpArrayPatch
  import opened PhpInclude
  import opened PhpIncludeBlock
  import G = PhpGrammar

  const FRESH := "<?php\n"

  function FreshDoc(): Doc { Doc([Lexeme([], Piece(Open, "<?php"))], [Piece(Blank, "\n")]) }

  lemma FreshPieces()
    ensures AllPieces(FreshDoc()) == [Piece(Open, "<?php"), Piece(Blank, "\n")] && Flatten(AllPieces(FreshDoc())) == FRESH
  {
    var d := FreshDoc();
    var ps := [Piece(Open, "<?php"), Piece(Blank, "\n")];
    assert Pieces(d.lexemes[1..]) == [];
    assert Pieces(d.lexemes) == [] + [Piece(Open, "<?php")] + [];
    assert ps[1..] == [Piece(Blank, "\n")] && ps[1..][1..] == [];
    assert Flatten(ps[1..]) == "\n" + "";
  }

  lemma FreshParses()
    ensures Parse(FRESH) == Ok(FreshDoc())
  {
    hide Parse, AllPieces, Balanced, Pieces;
    var d := FreshDoc();
    FreshPieces();
    var ps := AllPieces(d);
    assert ps[1..] == [Piece(Blank, "\n")] && ps[1..][1..] == [];
    assert G.ArePieces(ps[1..], true, "");
    G.BalancedIs(d.lexemes);
    assert d.lexemes[1..] == [];
    G.ParsesSource(FRESH, d);
  }

  /** The block, line by line. */
  function BlockLines(included: string, marker: string): string {
    var file := SingleQuoted("/" + included);
    "// <polka:" + marker + ">\n" +
    ("if (file_exists(__DIR__ . " + file + ")) {\n" +
     ("  include __DIR__ . " + file + ";\n" +
      ("}\n" + ("// </polka:" + marker + ">\n"))))
  }

  lemma BlockIs(included: string, marker: string)
    ensures IncludeBlock(included, marker, "\n") + "\n" == BlockLines(included, marker)
  {
    hide SingleQuoted;
    var file := SingleQuoted("/" + included);
    var lines := [StartMarker(marker), Line2(file), Line3(file), "}", EndMarker(marker)];
    JoinFive(StartMarker(marker), Line2(file), Line3(file), "}", EndMarker(marker), "\n");
  }

  lemma JoinFive(a: string, b: string, c: string, d: string, e: string, sep: string)
    ensures Join([a, b, c, d, e], sep) == a + sep + (b + sep + (c + sep + (d + sep + e)))
  {
    assert [a, b, c, d, e][1..] == [b, c, d, e] && [b, c, d, e][1..] == [c, d, e] && [c, d, e][1..] == [d, e] && [d, e][1..] == [e];
    assert Join([d, e], sep) == d + sep + e;
    assert Join([c, d, e], sep) == c + sep + (d + sep + e);
    assert Join([b, c, d, e], sep) == b + sep + (c + sep + (d + sep + e));
  }

  lemma FreshMarkers(marker: string)
    ensures FindMarkers(AllPieces(FreshDoc()), marker) == Ok(NoMarkers)
  {
    hide Pieces, FindMarkers;
    FreshPieces();
    MarkersExactly(AllPieces(FreshDoc()), marker);
  }

  lemma FreshEnd()
    ensures SectionEnd(AllPieces(FreshDoc())) == 2 && Off(AllPieces(FreshDoc()), 2) == 6
  {
    hide Pieces, Flatten;
    FreshPieces();
    var ps := AllPieces(FreshDoc());
    assert ps[..2] == ps && ps[..1] == [Piece(Open, "<?php")];
    assert SectionEnd(ps[..1]) == 1;
  }

  lemma FreshEol()
    ensures EOL(FRESH) == "\n"
  {
    NoPair(FRESH, '\r', '\n');
    assert "\r\n" == ['\r', '\n'];
  }

  lemma FreshInclude(included: string, marker: string)
    ensures PatchInclude(FRESH, included, marker) == Ok("<?php\n" + BlockLines(included, marker))
  {
    hide Parse, IncludeBlock, AllPieces, FindMarkers, SectionEnd, Off, EOL, BlockLines;
    FreshParses();
    FreshMarkers(marker);
    FreshEnd();
    FreshEol();
    BlockIs(included, marker);
    assert FRESH[..6] == FRESH && FRESH[6..] == "" && FRESH[5] == '\n';
    var block := IncludeBlock(included, marker, "\n");
    assert FRESH + ("" + block + "\n") + "" == FRESH + (block + "\n");
  }
}
