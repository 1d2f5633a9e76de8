/** Editing a parsed document: which text may stand next to which token, and the
    document-level form of the splice theorem. */
module PhpSplice {
  import opened Text
  import opened PhpLexer
  import opened PhpTokens

  // ----- what a piece looks like -----

  /** Html and `<?php` are read in HTML mode, everything else in PHP mode. */
  lemma LexMode(s: string, php: bool)
    requires s != "" && Lex(s, php).Ok?
    ensures var p := Lex(s, php).value;
      && (php <==> p.kind != Html && p.kind != Open)
      && (p.kind == Open ==> p.text == "<?php") && (p.kind == Close ==> p.text == "?>")
      && (p.kind == Blank ==> |p.text| == 1 && IsBlank(p.text[0]))
      && (p.kind == Identifier ==> IsIdentifierStart(p.text[0]))
  {
  }

  lemma LexComment(s: string, php: bool)
    requires s != "" && Lex(s, php).Ok? && Lex(s, php).value.kind == Comment
    ensures var t := Lex(s, php).value.text;
      && t != "" && (t[0] == '#' || t[0] == '/')
      && (if IsLineComment(Lex(s, php).value) then forall i :: 0 <= i < |t| ==> t[i] != '\n' && t[i] != '\r' else t[|t| - 1] == '/')
  {
    var p := LexPhp(s).value;
    if IsLineComment(p) {
      assert p.text + s[|p.text|..] == s;
      LineLengthLook(p.text, s[|p.text|..]);
    } else {
      assert s[0] == '/' && s[1] == '*';
      BlockEnds(s);
    }
  }

  lemma BlockEnds(s: string)
    requires "/*" <= s && LexBlockComment(s).Ok?
    ensures var t := LexBlockComment(s).value.text; t[0] == '/' && t[|t| - 1] == '/'
  {
    var n := Index(s[2..], "*/");
    IndexFirst(s[2..], "*/");
    assert s[2..][n + 1] == '/';
    assert s[..n + 4][n + 3] == s[n + 3];
  }

  /** Literal text that lexes to one symbol whatever follows. */
  predicate Firm(c: char) {
    c == ',' || c == '[' || c == ']' || c == '(' || c == ')' || c == '{' || c == '}' || c == ';'
  }

  lemma LexFirm(c: char, r: string)
    requires Firm(c)
    ensures Lex([c] + r, true) == Ok(Piece(Symbol, [c]))
  {
  }

  lemma LexArrow(r: string)
    ensures Lex("=>" + r, true) == Ok(Piece(Symbol, "=>"))
  {
  }

  function Blanks(s: string): (ps: seq<Piece>)
    ensures |ps| == |s|
    ensures Trivia(ps)
    ensures forall i :: 0 <= i < |s| ==> ps[i] == Piece(Blank, [s[i]])
  {
    seq(|s|, i requires 0 <= i < |s| => Piece(Blank, [s[i]]))
  }

  lemma {:induction false} BlanksLex(s: string, r: string)
    requires forall i :: 0 <= i < |s| ==> IsBlank(s[i])
    ensures Lexes(Blanks(s), true, r) && Flatten(Blanks(s)) == s && ModeAfter(Blanks(s), true)
  {
    if s != "" {
      assert Blanks(s)[1..] == Blanks(s[1..]);
      BlanksLex(s[1..], r);
      assert s == [s[0]] + s[1..];
      assert (s + r)[..1] == [s[0]];
    }
  }

  /** A blank can follow anything but HTML text; so can a firm symbol, except
      after a line comment. */
  lemma SafeBlank(p: Piece, r: string)
    requires p.kind != Html && !IsLineComment(p) && r != "" && (IsBlank(r[0]) || Firm(r[0]))
    ensures Safe(p, r)
  {
  }

  lemma SafeLine(p: Piece, r: string)
    requires p.kind != Html && r != "" && (r[0] == '\n' || r[0] == '\r')
    ensures Safe(p, r)
  {
  }

  // ----- parsed documents -----

  /** The pieces of a parsed document are its scan. */
  lemma ParseScan(src: string)
    requires Parse(src).Ok?
    ensures var d := Parse(src).value;
      && Scan(src, false) == Ok(AllPieces(d)) && Flatten(AllPieces(d)) == src
      && WellFormed(d.lexemes) && Trivia(d.tail) && Balanced(d.lexemes) && d.lexemes != []
  {
    hide Lex;
    var ps := Scan(src, false).value;
    GroupPieces([], ps);
    GroupWellFormed([], ps);
    assert [] + ps == ps;
    ScanLexes(src, false);
    CheckIsBalanced(Group([], ps).lexemes);
  }

  /** A scan whose lexemes are balanced is a parse. */
  lemma ScanParse(src: string, d: Doc)
    requires Scan(src, false) == Ok(AllPieces(d))
    requires WellFormed(d.lexemes) && Trivia(d.tail) && Balanced(d.lexemes) && d.lexemes != []
    ensures Parse(src) == Ok(d)
  {
    PiecesGroup(d.lexemes, d.tail);
    CheckIsBalanced(d.lexemes);
  }

  /** Exchanging one balanced stretch for another keeps a document balanced. */
  lemma BalancedReplace(a: seq<Lexeme>, x: seq<Lexeme>, y: seq<Lexeme>, b: seq<Lexeme>)
    requires Balanced(x) && Balanced(y)
    ensures Balanced(a + x + b) <==> Balanced(a + y + b)
  {
    RunConcat([], a + x, b);
    RunConcat([], a + y, b);
    RunConcat([], a, x);
    RunConcat([], a, y);
    if Run([], a).Some? {
      var st := Run([], a).value;
      RunAbove(st, [], x);
      RunAbove(st, [], y);
      assert st + [] == st;
    }
  }

  lemma {:induction false} TriviaMode(ps: seq<Piece>, php: bool)
    requires Trivia(ps)
    ensures ModeAfter(ps, php) == php
  {
    if ps != [] {
      assert ps[0] in ps;
      TriviaMode(ps[1..], php);
    }
  }

  lemma LexedAt(src: string, ps: seq<Piece>, k: nat)
    requires Scan(src, false) == Ok(ps) && k < |ps|
    ensures Flatten(ps[k..]) != ""
    ensures Lex(Flatten(ps[k..]), ModeAfter(ps[..k], false)) == Ok(ps[k])
  {
    hide Lex;
    SplitScan(src, ps, k);
  }

  lemma PiecesSnoc(ls: seq<Lexeme>, i: nat)
    requires i < |ls|
    ensures Pieces(ls[..i + 1]) == Pieces(ls[..i]) + ls[i].gap + [ls[i].token]
  {
    assert ls[..i + 1] == ls[..i] + [ls[i]];
    PiecesConcat(ls[..i], [ls[i]]);
    assert [ls[i]][1..] == [];
    assert Pieces([ls[i]]) == ls[i].gap + [ls[i].token];
  }

  /** The mode in which token i of a document, and the gap before it, was read. */
  lemma ModeAt(src: string, d: Doc, i: nat)
    requires Parse(src) == Ok(d) && i < |d.lexemes|
    ensures var m := ModeAfter(Pieces(d.lexemes[..i]), false);
      && ModeAfter(Pieces(d.lexemes[..i]) + d.lexemes[i].gap, false) == m
      && (m <==> d.lexemes[i].token.kind != Open)
      && (d.lexemes[i].token.kind == Open ==> d.lexemes[i].Txt() == "<?php")
      && (d.lexemes[i].token.kind == Close ==> d.lexemes[i].Txt() == "?>")
      && d.lexemes[i].Txt() != ""
      && (d.lexemes[i].token.kind == Identifier ==> IsIdentifierStart(d.lexemes[i].Txt()[0]))
      && ModeAfter(Pieces(d.lexemes[..i + 1]), false) == (d.lexemes[i].token.kind != Close)
  {
    hide Lex, Parse, Scan, ModeAfter, Pieces, Flatten;
    ParseScan(src);
    var ls := d.lexemes;
    var pre, gap, t := Pieces(ls[..i]), ls[i].gap, ls[i].token;
    assert ls[i] in ls;
    ModeConcat(pre, gap, false);
    TriviaMode(gap, ModeAfter(pre, false));
    CutAt(d, i);
    var ps := AllPieces(d);
    var k := |pre + gap|;
    LexedAt(src, ps, k);
    assert ps[..k] == pre + gap && ps[k] == t;
    LexMode(Flatten(ps[k..]), ModeAfter(pre, false));
    PiecesSnoc(ls, i);
    ModeConcat(pre + gap, [t], false);
    ModeOne(t, ModeAfter(pre, false));
  }

  lemma ModeOne(p: Piece, php: bool)
    ensures ModeAfter([p], php) == After(p, php)
  {
  }

  /** A document cut before, inside and after lexeme i. */
  lemma CutAt(d: Doc, i: nat)
    requires i < |d.lexemes|
    ensures var ls := d.lexemes;
      AllPieces(d) == Pieces(ls[..i]) + ls[i].gap + ([ls[i].token] + (Pieces(ls[i + 1..]) + d.tail))
  {
    var ls := d.lexemes;
    assert ls == ls[..i] + ls[i..];
    PiecesConcat(ls[..i], ls[i..]);
    assert ls[i..][1..] == ls[i + 1..];
    assert Pieces(ls[i..]) == ls[i].gap + [ls[i].token] + Pieces(ls[i + 1..]);
  }
}
