/** The managed include block: its text and what it scans to. */
module PhpIncludeBlock {
  import opened Text
  import opened PhpLexer
  import opened PhpTokens
  import opened PhpLiterals
  import opened PhpSplice
  import opened PhpEntries

  function StartMarker(marker: string): string { "// <polka:" + marker + ">" }

  function EndMarker(marker: string): string { "// </polka:" + marker + ">" }

  /** The characters of a plugin identifier, which is what markers are checked against. */
  predicate ValidMarker(marker: string) {
    forall i :: 0 <= i < |marker| ==> IsIdentifierPart(marker[i]) || marker[i] == '.' || marker[i] == '-'
  }

  function Line2(file: string): string { "if (file_exists(__DIR__ . " + file + ")) {" }

  function Line3(file: string): string { "  include __DIR__ . " + file + ";" }

  /** The block of patchPHPInclude. */
  function IncludeBlock(included: string, marker: string, eol: string): string {
    var file := SingleQuoted("/" + included);
    Join([StartMarker(marker), Line2(file), Line3(file), "}", EndMarker(marker)], eol)
  }

  function Word(w: string): Piece { Piece(Identifier, w) }

  function Sign(s: string): Piece { Piece(Symbol, s) }

  const GAP: seq<Piece> := [Piece(Blank, " ")]

  function Line2Pieces(file: string): seq<Piece> {
    [Word("if")] + (GAP + ([Sign("(")] + ([Word("file_exists")] + ([Sign("(")] + (DirPieces(file) + ([Sign(")")] + ([Sign(")")] + (GAP + [Sign("{")]))))))))
  }

  function DirPieces(file: string): seq<Piece> {
    [Word("__DIR__")] + (GAP + ([Sign(".")] + (GAP + [Piece(Quoted, file)])))
  }

  function Line3Pieces(file: string): seq<Piece> {
    (GAP + GAP) + ([Word("include")] + (GAP + (DirPieces(file) + [Sign(";")])))
  }

  function BlockPieces(included: string, marker: string, eol: string): seq<Piece> {
    var file := SingleQuoted("/" + included);
    [Piece(Comment, StartMarker(marker))] + (Blanks(eol) + (Line2Pieces(file) + (Blanks(eol) + (Line3Pieces(file) + (Blanks(eol) + ([Sign("}")] + (Blanks(eol) + [Piece(Comment, EndMarker(marker))])))))))
  }

  /** The texts of the tokens among some pieces. */
  function TokenTexts(ps: seq<Piece>): seq<string> {
    if ps == [] then [] else (if IsToken(ps[0]) then [ps[0].text] else []) + TokenTexts(ps[1..])
  }

  lemma {:induction false} TextsConcat(a: seq<Piece>, b: seq<Piece>)
    ensures TokenTexts(a + b) == TokenTexts(a) + TokenTexts(b)
  {
    if a == [] {
      assert a + b == b;
    } else {
      assert (a + b)[1..] == a[1..] + b;
      TextsConcat(a[1..], b);
    }
  }

  lemma {:induction false} NoTexts(ps: seq<Piece>)
    requires Trivia(ps)
    ensures TokenTexts(ps) == []
  {
    if ps != [] {
      assert ps[0] in ps;
      NoTexts(ps[1..]);
    }
  }

  lemma OneText(p: Piece, ps: seq<Piece>)
    ensures TokenTexts([p] + ps) == (if IsToken(p) then [p.text] else []) + TokenTexts(ps)
    ensures TokenTexts([]) == []
  {
    assert ([p] + ps)[1..] == ps;
  }

  lemma SkipTexts(gap: seq<Piece>, ps: seq<Piece>)
    requires Trivia(gap)
    ensures TokenTexts(gap + ps) == TokenTexts(ps)
  {
    TextsConcat(gap, ps);
    NoTexts(gap);
  }

  lemma DirTexts(file: string, rest: seq<Piece>)
    ensures TokenTexts(DirPieces(file) + rest) == ["__DIR__", ".", file] + TokenTexts(rest)
  {
    hide TokenTexts;
    TextsConcat(DirPieces(file), rest);
    var q := Piece(Quoted, file);
    OneText(Word("__DIR__"), GAP + ([Sign(".")] + (GAP + [q])));
    SkipTexts(GAP, [Sign(".")] + (GAP + [q]));
    OneText(Sign("."), GAP + [q]);
    SkipTexts(GAP, [q]);
    OneText(q, []);
    assert [q] + [] == [q];
  }

  lemma Line2Texts(file: string)
    ensures TokenTexts(Line2Pieces(file)) == ["if", "(", "file_exists", "(", "__DIR__", ".", file, ")", ")", "{"]
  {
    hide TokenTexts, DirPieces;
    var s4 := [Sign(")")] + ([Sign(")")] + (GAP + [Sign("{")]));
    var s3 := [Sign("(")] + (DirPieces(file) + s4);
    OneText(Word("if"), GAP + ([Sign("(")] + ([Word("file_exists")] + s3)));
    SkipTexts(GAP, [Sign("(")] + ([Word("file_exists")] + s3));
    OneText(Sign("("), [Word("file_exists")] + s3);
    OneText(Word("file_exists"), s3);
    OneText(Sign("("), DirPieces(file) + s4);
    DirTexts(file, s4);
    OneText(Sign(")"), [Sign(")")] + (GAP + [Sign("{")]));
    OneText(Sign(")"), GAP + [Sign("{")]);
    SkipTexts(GAP, [Sign("{")]);
    OneText(Sign("{"), []);
    assert [Sign("{")] + [] == [Sign("{")];
  }

  lemma Line3Texts(file: string)
    ensures TokenTexts(Line3Pieces(file)) == ["include", "__DIR__", ".", file, ";"]
  {
    hide TokenTexts, DirPieces;
    var s := [Word("include")] + (GAP + (DirPieces(file) + [Sign(";")]));
    SkipTexts(GAP + GAP, s);
    OneText(Word("include"), GAP + (DirPieces(file) + [Sign(";")]));
    SkipTexts(GAP, DirPieces(file) + [Sign(";")]);
    DirTexts(file, [Sign(";")]);
    OneText(Sign(";"), []);
    assert [Sign(";")] + [] == [Sign(";")];
  }

  /** What the block says, between its markers: if the file is there, it is included. */
  lemma BlockSays(included: string, marker: string, eol: string)
    ensures var ps, file := BlockPieces(included, marker, eol), SingleQuoted("/" + included);
      && LiteralKey(Piece(Quoted, file)) == Ok("/" + included)
      && TokenTexts(ps) == ["if", "(", "file_exists", "(", "__DIR__", ".", file, ")", ")", "{"] + ["include", "__DIR__", ".", file, ";"] + ["}"]
      && ps[0] == Piece(Comment, "// <polka:" + marker + ">") && ps[|ps| - 1] == Piece(Comment, "// </polka:" + marker + ">")
  {
    hide TokenTexts, Line2Pieces, Line3Pieces, SingleQuoted, LiteralKey, Blanks;
    var file := SingleQuoted("/" + included);
    QuotedScans("/" + included, "");
    Line2Texts(file);
    Line3Texts(file);
    var last := [Piece(Comment, EndMarker(marker))];
    var s3 := [Sign("}")] + (Blanks(eol) + last);
    var s2 := Line3Pieces(file) + (Blanks(eol) + s3);
    var s1 := Line2Pieces(file) + (Blanks(eol) + s2);
    OneText(Piece(Comment, StartMarker(marker)), Blanks(eol) + s1);
    SkipTexts(Blanks(eol), s1);
    TextsConcat(Line2Pieces(file), Blanks(eol) + s2);
    SkipTexts(Blanks(eol), s2);
    TextsConcat(Line3Pieces(file), Blanks(eol) + s3);
    SkipTexts(Blanks(eol), s3);
    OneText(Sign("}"), Blanks(eol) + last);
    SkipTexts(Blanks(eol), last);
    OneText(last[0], []);
    assert last[..] + [] == last && [last[0]] + [] == last;
  }

  // ----- reading it -----

  /** What may follow a line comment. */
  predicate EndsLine(r: string) { r == "" || r[0] == '\n' || r[0] == '\r' || "?>" <= r }

  lemma {:induction false} LineLengthAll(t: string, r: string)
    requires EndsLine(r) && forall i :: 0 <= i < |t| ==> t[i] != '\n' && t[i] != '\r' && t[i] != '?'
    ensures LineLength(t + r) == |t|
  {
    if t == "" {
      assert t + r == r;
    } else {
      assert (t + r)[1..] == t[1..] + r;
      LineLengthAll(t[1..], r);
    }
  }

  lemma ReadsMarker(t: string, r: string)
    requires "// " <= t && EndsLine(r) && forall i :: 0 <= i < |t| ==> t[i] != '\n' && t[i] != '\r' && t[i] != '?'
    ensures Reads([Piece(Comment, t)], t, r)
  {
    hide Reads;
    LineLengthAll(t, r);
    var s := t + r;
    assert s[0] == '/' && s[1] == '/' && s[..|t|] == t;
    assert Lex(s, true) == Ok(Piece(Comment, t));
    ReadsOne(Piece(Comment, t), r);
  }

  lemma {:induction false} IdentifierWhole(w: string, r: string)
    requires (forall i :: 0 <= i < |w| ==> IsIdentifierPart(w[i])) && (r == "" || !IsIdentifierPart(r[0]))
    ensures IdentifierLength(w + r) == |w|
  {
    if w == "" {
      assert w + r == r;
    } else {
      assert (w + r)[1..] == w[1..] + r;
      IdentifierWhole(w[1..], r);
    }
  }

  lemma ReadsWord(w: string, r: string)
    requires w != "" && IsIdentifierStart(w[0]) && (forall i :: 0 <= i < |w| ==> IsIdentifierPart(w[i])) && (r == "" || !IsIdentifierPart(r[0]))
    ensures Reads([Word(w)], w, r)
  {
    hide Reads;
    var s := w + r;
    assert s[1..] == w[1..] + r;
    IdentifierWhole(w[1..], r);
    assert s[0] == w[0] && s[..|w|] == w;
    assert Lex(s, true) == Ok(Word(w));
    ReadsOne(Word(w), r);
  }

  lemma ReadsDot(r: string)
    requires r != "" && IsBlank(r[0])
    ensures Reads([Sign(".")], ".", r)
  {
    hide Reads;
    assert ("." + r)[..1] == ".";
    assert ("." + r)[1] == r[0];
    assert Lex("." + r, true) == Ok(Sign("."));
    ReadsOne(Sign("."), r);
  }

  lemma ReadsGap(r: string)
    ensures Reads(GAP, " ", r)
  {
    hide Reads;
    assert Blanks(" ") == GAP;
    ReadsBlanks(" ", r);
  }

  lemma ReadsDir(value: string, r: string)
    ensures Reads(DirPieces(SingleQuoted(value)), "__DIR__ . " + SingleQuoted(value), r)
  {
    hide Reads, SingleQuoted;
    var q := SingleQuoted(value);
    ReadsQuoted(value, r);
    ReadsGap(q + r);
    ReadsConcat(GAP, " ", [Piece(Quoted, q)], q, r);
    var s1, p1 := " " + q, GAP + [Piece(Quoted, q)];
    ReadsDot(s1 + r);
    ReadsConcat([Sign(".")], ".", p1, s1, r);
    var s2, p2 := "." + s1, [Sign(".")] + p1;
    ReadsGap(s2 + r);
    ReadsConcat(GAP, " ", p2, s2, r);
    var s3, p3 := " " + s2, GAP + p2;
    ReadsWord("__DIR__", s3 + r);
    ReadsConcat([Word("__DIR__")], "__DIR__", p3, s3, r);
    assert "__DIR__" + s3 == "__DIR__ . " + q;
  }

  lemma ReadsLine2(value: string, r: string)
    ensures Reads(Line2Pieces(SingleQuoted(value)), Line2(SingleQuoted(value)), r)
  {
    hide Reads, SingleQuoted, DirPieces, Line2;
    var q := SingleQuoted(value);
    ReadsFirm('{', r);
    ReadsGap("{" + r);
    ReadsConcat(GAP, " ", [Sign("{")], "{", r);
    var s1, p1 := " " + "{", GAP + [Sign("{")];
    ReadsFirm(')', s1 + r);
    ReadsConcat([Sign(")")], ")", p1, s1, r);
    var s2, p2 := ")" + s1, [Sign(")")] + p1;
    ReadsFirm(')', s2 + r);
    ReadsConcat([Sign(")")], ")", p2, s2, r);
    var s3, p3 := ")" + s2, [Sign(")")] + p2;
    ReadsDir(value, s3 + r);
    ReadsConcat(DirPieces(q), "__DIR__ . " + q, p3, s3, r);
    var s4, p4 := "__DIR__ . " + q + s3, DirPieces(q) + p3;
    ReadsFirm('(', s4 + r);
    ReadsConcat([Sign("(")], "(", p4, s4, r);
    var s5, p5 := "(" + s4, [Sign("(")] + p4;
    ReadsWord("file_exists", s5 + r);
    ReadsConcat([Word("file_exists")], "file_exists", p5, s5, r);
    var s6, p6 := "file_exists" + s5, [Word("file_exists")] + p5;
    ReadsLine2Head(s6, p6, r);
    Line2Is(q);
  }

  lemma Line2Is(q: string)
    ensures "if" + (" " + ("(" + ("file_exists" + ("(" + ("__DIR__ . " + q + (")" + (")" + (" " + "{")))))))) == Line2(q)
  {
    var head, tail := "__DIR__ . " + q, ")" + (")" + (" " + "{"));
    assert tail == ")) {";
    assert "if" + (" " + ("(" + ("file_exists" + ("(" + (head + tail))))) == "if (file_exists(" + (head + tail);
    assert "if (file_exists(" + "__DIR__ . " == "if (file_exists(__DIR__ . ";
  }

  lemma ReadsLine2Head(s: string, p: seq<Piece>, r: string)
    requires Reads(p, s, r)
    ensures Reads([Word("if")] + (GAP + ([Sign("(")] + p)), "if" + (" " + ("(" + s)), r)
  {
    hide Reads;
    ReadsFirm('(', s + r);
    ReadsConcat([Sign("(")], "(", p, s, r);
    var s1, p1 := "(" + s, [Sign("(")] + p;
    ReadsGap(s1 + r);
    ReadsConcat(GAP, " ", p1, s1, r);
    var s2, p2 := " " + s1, GAP + p1;
    ReadsWord("if", s2 + r);
    ReadsConcat([Word("if")], "if", p2, s2, r);
  }

  lemma ReadsLine3(value: string, r: string)
    ensures Reads(Line3Pieces(SingleQuoted(value)), Line3(SingleQuoted(value)), r)
  {
    hide Reads, SingleQuoted, DirPieces;
    var q := SingleQuoted(value);
    ReadsFirm(';', r);
    ReadsDir(value, ";" + r);
    ReadsConcat(DirPieces(q), "__DIR__ . " + q, [Sign(";")], ";", r);
    var s1, p1 := "__DIR__ . " + q + ";", DirPieces(q) + [Sign(";")];
    ReadsGap(s1 + r);
    ReadsConcat(GAP, " ", p1, s1, r);
    var s2, p2 := " " + s1, GAP + p1;
    ReadsWord("include", s2 + r);
    ReadsConcat([Word("include")], "include", p2, s2, r);
    var s3, p3 := "include" + s2, [Word("include")] + p2;
    ReadsGap(s3 + r);
    ReadsGap(" " + (s3 + r));
    ReadsConcat(GAP, " ", GAP, " ", s3 + r);
    ReadsConcat(GAP + GAP, " " + " ", p3, s3, r);
    assert (" " + " ") + s3 == Line3(q);
  }

  lemma MarkerText(marker: string)
    requires ValidMarker(marker)
    ensures forall t :: t == StartMarker(marker) || t == EndMarker(marker) ==>
      "// " <= t && forall i :: 0 <= i < |t| ==> t[i] != '\n' && t[i] != '\r' && t[i] != '?'
    ensures StartMarker(marker) != EndMarker(marker)
  {
  }

  /** The block scans to its pieces wherever a line comment may end after it. */
  lemma ReadsBlock(included: string, marker: string, eol: string, r: string)
    requires ValidMarker(marker) && AllBlank(eol) && eol != "" && (eol[0] == '\n' || eol[0] == '\r') && EndsLine(r)
    ensures Reads(BlockPieces(included, marker, eol), IncludeBlock(included, marker, eol), r)
  {
    hide Reads, SingleQuoted, Line2Pieces, Line3Pieces, Line2, Line3, StartMarker, EndMarker, Blanks;
    var value := "/" + included;
    var q, sm, em := SingleQuoted(value), StartMarker(marker), EndMarker(marker);
    MarkerText(marker);
    ReadsMarker(em, r);
    ReadsBlanks(eol, em + r);
    ReadsConcat(Blanks(eol), eol, [Piece(Comment, em)], em, r);
    var s1, p1 := eol + em, Blanks(eol) + [Piece(Comment, em)];
    ReadsFirm('}', s1 + r);
    ReadsConcat([Sign("}")], "}", p1, s1, r);
    var s2, p2 := "}" + s1, [Sign("}")] + p1;
    ReadsBlanks(eol, s2 + r);
    ReadsConcat(Blanks(eol), eol, p2, s2, r);
    var s3, p3 := eol + s2, Blanks(eol) + p2;
    ReadsLine3(value, s3 + r);
    ReadsConcat(Line3Pieces(q), Line3(q), p3, s3, r);
    var s4, p4 := Line3(q) + s3, Line3Pieces(q) + p3;
    ReadsBlanks(eol, s4 + r);
    ReadsConcat(Blanks(eol), eol, p4, s4, r);
    var s5, p5 := eol + s4, Blanks(eol) + p4;
    ReadsLine2(value, s5 + r);
    ReadsConcat(Line2Pieces(q), Line2(q), p5, s5, r);
    var s6, p6 := Line2(q) + s5, Line2Pieces(q) + p5;
    ReadsBlanks(eol, s6 + r);
    ReadsConcat(Blanks(eol), eol, p6, s6, r);
    var s7, p7 := eol + s6, Blanks(eol) + p6;
    ReadsMarker(sm, s7 + r);
    ReadsConcat([Piece(Comment, sm)], sm, p7, s7, r);
    JoinFive(sm, Line2(q), Line3(q), em, eol);
  }

  lemma JoinFive(a: string, b: string, c: string, e: string, eol: string)
    ensures Join([a, b, c, "}", e], eol) == a + (eol + (b + (eol + (c + (eol + ("}" + (eol + e)))))))
  {
    var l := [a, b, c, "}", e];
    assert l[1..] == [b, c, "}", e] && l[1..][1..] == [c, "}", e] && [c, "}", e][1..] == ["}", e] && ["}", e][1..] == [e];
    assert Join(["}", e], eol) == "}" + (eol + e);
    assert Join([c, "}", e], eol) == c + (eol + ("}" + (eol + e)));
    assert Join([b, c, "}", e], eol) == b + (eol + (c + (eol + ("}" + (eol + e)))));
  }

  // ----- what the pieces are -----

  /** The bare tokens of a run of pieces. */
  function Bare(ps: seq<Piece>): seq<Lexeme> {
    if ps == [] then [] else (if IsToken(ps[0]) then [Lexeme([], ps[0])] else []) + Bare(ps[1..])
  }

  lemma {:induction false} BareConcat(a: seq<Piece>, b: seq<Piece>)
    ensures Bare(a + b) == Bare(a) + Bare(b)
  {
    if a == [] {
      assert a + b == b;
    } else {
      assert (a + b)[1..] == a[1..] + b;
      BareConcat(a[1..], b);
    }
  }

  lemma {:induction false} BareTrivia(ps: seq<Piece>)
    requires Trivia(ps)
    ensures Bare(ps) == []
  {
    if ps != [] {
      assert ps[0] in ps;
      BareTrivia(ps[1..]);
    }
  }

  predicate IsBracket(p: Piece) { IsToken(p) && (IsOpen(p.text) || IsClose(p.text)) }

  /** The brackets of a run of pieces. */
  function Shape(ps: seq<Piece>): seq<string> {
    if ps == [] then [] else (if IsBracket(ps[0]) then [ps[0].text] else []) + Shape(ps[1..])
  }

  function RunShape(stack: seq<string>, ts: seq<string>): Option<seq<string>>
    decreases |ts|
  {
    if ts == [] then Some(stack)
    else
      match Feed(stack, ts[0])
      case None => None
      case Some(s) => RunShape(s, ts[1..])
  }

  /** Only the brackets matter for the bracket check. */
  lemma {:induction false} ShapeRuns(stack: seq<string>, ps: seq<Piece>)
    ensures Run(stack, Bare(ps)) == RunShape(stack, Shape(ps))
    decreases |ps|
  {
    if ps != [] {
      var p, rest := ps[0], ps[1..];
      if IsBracket(p) {
        assert Bare(ps)[0].Txt() == p.text && Bare(ps)[1..] == Bare(rest);
        assert Shape(ps)[0] == p.text && Shape(ps)[1..] == Shape(rest);
        var r := Feed(stack, p.text);
        assert RunShape(stack, Shape(ps)) == if r.None? then None else RunShape(r.value, Shape(rest));
        assert Run(stack, Bare(ps)) == if r.None? then None else Run(r.value, Bare(rest));
        if r.Some? { ShapeRuns(r.value, rest); }
      } else {
        assert Shape(ps) == Shape(rest);
        if IsToken(p) {
          assert Bare(ps)[0].Txt() == p.text && Bare(ps)[1..] == Bare(rest);
        } else {
          assert Bare(ps) == Bare(rest);
        }
        ShapeRuns(stack, rest);
      }
    }
  }

  lemma {:induction false} ShapeConcat(a: seq<Piece>, b: seq<Piece>)
    ensures Shape(a + b) == Shape(a) + Shape(b)
  {
    if a == [] {
      assert a + b == b;
    } else {
      assert (a + b)[1..] == a[1..] + b;
      ShapeConcat(a[1..], b);
    }
  }

  lemma {:induction false} NoShape(ps: seq<Piece>)
    requires forall i :: 0 <= i < |ps| ==> !IsBracket(ps[i])
    ensures Shape(ps) == []
  {
    if ps != [] { NoShape(ps[1..]); }
  }

  lemma ShapeOne(p: Piece)
    requires IsBracket(p)
    ensures Shape([p]) == [p.text]
  {
  }

  lemma Line2Shape(file: string)
    requires file != "" && file[0] == '\''
    ensures Shape(Line2Pieces(file)) == ["(", "(", ")", ")", "{"]
  {
    hide Shape;
    var d := DirPieces(file);
    var a, b, c := [Word("if"), GAP[0]], [Word("file_exists")], GAP;
    NoShape(a);
    NoShape(b);
    NoShape(c);
    NoShape(d);
    ShapeOne(Sign("("));
    ShapeOne(Sign(")"));
    ShapeOne(Sign("{"));
    var open, close, brace := [Sign("(")], [Sign(")")], [Sign("{")];
    assert Line2Pieces(file) == a + (open + (b + (open + (d + (close + (close + (c + brace)))))));
    ShapeConcat(c, brace);
    ShapeConcat(close, c + brace);
    ShapeConcat(close, close + (c + brace));
    ShapeConcat(d, close + (close + (c + brace)));
    ShapeConcat(open, d + (close + (close + (c + brace))));
    ShapeConcat(b, open + (d + (close + (close + (c + brace)))));
    ShapeConcat(open, b + (open + (d + (close + (close + (c + brace))))));
    ShapeConcat(a, open + (b + (open + (d + (close + (close + (c + brace)))))));
  }

  lemma BlockShape(included: string, marker: string, eol: string)
    ensures Shape(BlockPieces(included, marker, eol)) == ["(", "(", ")", ")", "{"] + ["}"]
  {
    hide Shape, Line2Pieces, SingleQuoted, Blanks;
    var q := SingleQuoted("/" + included);
    QuotedHead("/" + included);
    Line2Shape(q);
    var a, l2, c, brace, e := [Piece(Comment, StartMarker(marker))] + Blanks(eol), Line2Pieces(q), Blanks(eol) + (Line3Pieces(q) + Blanks(eol)), [Sign("}")], Blanks(eol) + [Piece(Comment, EndMarker(marker))];
    NoShape(a);
    NoShape(c);
    NoShape(e);
    ShapeOne(Sign("}"));
    assert BlockPieces(included, marker, eol) == a + (l2 + (c + (brace + e)));
    ShapeConcat(brace, e);
    ShapeConcat(c, brace + e);
    ShapeConcat(l2, c + (brace + e));
    ShapeConcat(a, l2 + (c + (brace + e)));
  }

  lemma QuotedHead(value: string)
    ensures SingleQuoted(value) != "" && SingleQuoted(value)[0] == '\''
  {
  }

  /** The block is bracket balanced. */
  lemma BlockBalanced(included: string, marker: string, eol: string)
    ensures Balanced(Bare(BlockPieces(included, marker, eol)))
  {
    hide BlockPieces, Bare, Shape, SingleQuoted, RunShape;
    BlockShape(included, marker, eol);
    ShapeRuns([], BlockPieces(included, marker, eol));
    BracesRun([]);
    ShapeStep([], "(", ["(", ")", ")"] + ["{", "}"]);
    ShapeStep(["("], "(", [")", ")"] + ["{", "}"]);
    assert ["("] + ["("] == ["(", "("] && ["(", "("][..1] == ["("] && ["("][..0] == [];
    ShapeStep(["(", "("], ")", [")"] + ["{", "}"]);
    ShapeStep(["("], ")", ["{", "}"]);
    assert [] + ["("] == ["("];
    assert ["("] + (["(", ")", ")"] + ["{", "}"]) == ["(", "(", ")", ")", "{"] + ["}"];
    assert ["("] + ([")", ")"] + ["{", "}"]) == ["(", ")", ")"] + ["{", "}"];
    assert [")"] + ([")"] + ["{", "}"]) == [")", ")"] + ["{", "}"];
  }

  lemma ShapeStep(stack: seq<string>, t: string, ts: seq<string>)
    ensures RunShape(stack, [t] + ts) == match Feed(stack, t) case None => None case Some(s) => RunShape(s, ts)
  {
  }

  lemma BracesRun(stack: seq<string>)
    ensures RunShape(stack, ["{", "}"]) == Some(stack)
  {
  }
}
