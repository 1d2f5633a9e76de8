/** The ways of losing a value, on concrete sources. */
module PhpExamples {
  import opened Text
  import opened PhpLexer
  import opened PhpTokens
  import opened PhpLiterals
  import opened PhpSplice
  import opened PhpScalars
  import opened PhpArray
  import opened PhpEntries
  import opened PhpArrayPatch
  import opened PhpArrayLens
  import opened PhpArrayLaws
  import opened PhpArraySwallow
  import R = PhpArrayReader
  import opened PhpIncludeBlock
  import opened PhpDefines
  import opened PhpConstants
  import opened PhpConstantText
  import opened PhpConstantPatch
  import opened PhpConstantLaws
  import opened PhpConstantRuns
  import opened PhpConstantExact

  lemma Manages1(key: string, v: string)
    ensures Manages([key], map[key := v])
  {
  }

  // ----- a suppressed call -----

  const DOLLAR := "<?php $"

  function DollarDoc(): Doc { Doc([Lexeme([], Piece(Open, "<?php")), Lexeme(GAP, Piece(Symbol, "$"))], []) }

  lemma ReadsDollar()
    ensures Reads([Sign("$")], "$", "")
  {
    hide Reads;
    assert "$" + "" == "$" && "$"[..1] == "$";
    assert Lex("$", true) == Ok(Sign("$"));
    ReadsOne(Sign("$"), "");
  }

  lemma DollarParses()
    ensures Parse(DOLLAR) == Ok(DollarDoc())
  {
    hide Reads, Scan, Lex, Parse;
    ReadsDollar();
    ReadsGap("$" + "");
    ReadsConcat(GAP, " ", [Sign("$")], "$", "");
    ScanNothing(true);
    ScanReads(GAP + [Sign("$")], " " + "$", "", []);
    assert " " + "$" + "" == " $";
    ScanOpen(" $", GAP + [Sign("$")] + []);
    assert "<?php" + " $" == DOLLAR;
    var d := DollarDoc();
    PiecesOne(d.lexemes[0]);
    PiecesOne(d.lexemes[1]);
    PiecesConcat([d.lexemes[0]], [d.lexemes[1]]);
    assert d.lexemes == [d.lexemes[0]] + [d.lexemes[1]];
    assert AllPieces(d) == [Piece(Open, "<?php")] + (GAP + [Sign("$")] + []);
    OneBalanced(d.lexemes[0]);
    OneBalanced(d.lexemes[1]);
    BalancedConcat([d.lexemes[0]], [d.lexemes[1]]);
    ScanParse(DOLLAR, d);
  }

  lemma DollarWalk(anchor: string)
    ensures Walk(DollarDoc().lexemes, 0) == Ok([]) && InsertToken(DollarDoc().lexemes, anchor) == 2
  {
    var ls := DollarDoc().lexemes;
    assert !IsDefine(ls, 0) && !IsDefine(ls, 1);
    assert Walk(ls, 2) == Ok([]) && Walk(ls, 1) == Ok([]);
    assert Lower("<?php")[0] == '<' && Lower("$")[0] == '$';
    assert !IncludeWord("<?php") && !IncludeWord("$");
    assert Anchor(ls, 2, 0, anchor) == None && Anchor(ls, 1, 0, anchor) == None;
    assert Fallback(ls, 2, 0) == None && Fallback(ls, 1, 0) == None;
  }

  lemma DollarSpot(anchor: string)
    ensures forall i :: 0 <= i < 2 ==> Start(DollarDoc().lexemes, i) <= |DOLLAR|
    ensures Spot(DOLLAR, DollarDoc().lexemes, anchor) == 2 && Suppressed(DollarDoc().lexemes, 2)
  {
    hide InsertToken, Parse, Walk, Start, End, LinePosition;
    var ls := DollarDoc().lexemes;
    DollarParses();
    DollarWalk(anchor);
    StartsWithin(DOLLAR, DollarDoc());
    DollarLine();
    assert InsertPosition(DOLLAR, ls, anchor) == 7;
    assert Start(ls, 1) < End(ls, 1) <= 7;
  }

  lemma DollarLine()
    ensures LinePosition(DOLLAR, 7) == 7
  {
  }

  /** A file that ends in a dollar sign: whatever is to be set, the call that is added
      behind the sign is not found afterwards. */
  lemma DollarLost(key: string, v: string, anchor: string)
    requires IsLiteral(v)
    ensures !SetsAll(DOLLAR, map[key := v], [key], anchor)
  {
    hide Parse, Walk, Start, Spot, Suppressed, IsLiteral, PatchConstants, HoldsValues;
    DollarParses();
    DollarWalk(anchor);
    DollarSpot(anchor);
    Manages1(key, v);
    var values := map[key := v];
    assert Constants(DOLLAR) == Ok([]);
    assert MissingKeys([key], {}) == [key];
    assert Keys([]) == {};
    SuppressedLost(DOLLAR, values, [key], anchor);
  }

  // ----- sources in which a `?>` ends a comment -----

  function Remark(): Piece { Piece(Comment, "// x") }

  function Tag(gap: seq<Piece>, kind: Kind, text: string): Lexeme { Lexeme(gap, Piece(kind, text)) }

  /** A word, a bracket, the key k, a separator, and a comment before `?><?php`. */
  datatype Form = Form(word: string, open: char, sep: string, close: char)

  predicate ValidForm(f: Form) {
    && f.word != "" && IsIdentifierStart(f.word[0]) && (forall i :: 0 <= i < |f.word| ==> IsIdentifierPart(f.word[i]))
    && Firm(f.open) && Firm(f.close) && (f.sep == "," || f.sep == "=>")
  }

  function Source(f: Form): string {
    "<?php" + ((" " + (f.word + ([f.open] + ("'k'" + (f.sep + "// x"))))) + ("?>" + ("<?php" + (" " + ([f.close] + ";")))))
  }

  function HeadPieces(f: Form): seq<Piece> {
    GAP + ([Word(f.word)] + ([Sign([f.open])] + ([Piece(Quoted, "'k'")] + ([Sign(f.sep)] + [Remark()]))))
  }

  function FootPieces(f: Form): seq<Piece> {
    [Piece(Close, "?>")] + ([Piece(Open, "<?php")] + (GAP + ([Sign([f.close])] + [Sign(";")]) + []))
  }

  function Foot(f: Form): seq<Lexeme> {
    [Tag([Remark()], Close, "?>")] + ([Tag([], Open, "<?php")] + ([Tag(GAP, Symbol, [f.close])] + [Tag([], Symbol, ";")]))
  }

  function Tokens(f: Form): seq<Lexeme> {
    [Tag([], Open, "<?php")] + ([Tag(GAP, Identifier, f.word)] + ([Tag([], Symbol, [f.open])] + ([Tag([], Quoted, "'k'")] + ([Tag([], Symbol, f.sep)] + Foot(f)))))
  }

  lemma ReadsRemark(r: string)
    requires "?>" <= r
    ensures Reads([Remark()], "// x", r)
  {
    ReadsMarker("// x", r);
  }

  lemma ReadsSep(f: Form, r: string)
    requires ValidForm(f)
    ensures Reads([Sign(f.sep)], f.sep, r)
  {
    hide Reads, Lex;
    if f.sep == "," {
      ReadsFirm(',', r);
    } else {
      LexArrow(r);
      ReadsOne(Sign("=>"), r);
    }
  }

  lemma QuotedK()
    ensures SingleQuoted("k") == "'k'"
  {
  }

  lemma WordEnds(f: Form, s: string)
    requires ValidForm(f) && s != "" && s[0] == f.open
    ensures !IsIdentifierPart(s[0])
  {
  }

  /** The text between the opening tag and the comment's end. */
  lemma ReadsHead(f: Form, r: string)
    requires ValidForm(f) && "?>" <= r
    ensures Reads(HeadPieces(f), " " + (f.word + ([f.open] + ("'k'" + (f.sep + "// x")))), r)
  {
    hide Reads, IsIdentifierPart, IsIdentifierStart, Firm;
    ReadsRemark(r);
    ReadsSep(f, "// x" + r);
    ReadsConcat([Sign(f.sep)], f.sep, [Remark()], "// x", r);
    var s1, p1 := f.sep + "// x", [Sign(f.sep)] + [Remark()];
    QuotedK();
    ReadsQuoted("k", s1 + r);
    ReadsConcat([Piece(Quoted, "'k'")], "'k'", p1, s1, r);
    var s2, p2 := "'k'" + s1, [Piece(Quoted, "'k'")] + p1;
    ReadsFirm(f.open, s2 + r);
    ReadsConcat([Sign([f.open])], [f.open], p2, s2, r);
    var s3, p3 := [f.open] + s2, [Sign([f.open])] + p2;
    WordEnds(f, s3 + r);
    ReadsWord(f.word, s3 + r);
    ReadsConcat([Word(f.word)], f.word, p3, s3, r);
    var s4, p4 := f.word + s3, [Word(f.word)] + p3;
    ReadsGap(s4 + r);
    ReadsConcat(GAP, " ", p4, s4, r);
  }

  lemma ReadsFoot(f: Form)
    requires ValidForm(f)
    ensures Reads(GAP + ([Sign([f.close])] + [Sign(";")]), " " + ([f.close] + ";"), "")
  {
    hide Reads, Firm;
    assert Firm(';') by { Semicolon(); }
    ReadsFirm(';', "");
    ReadsFirm(f.close, ";" + "");
    ReadsConcat([Sign([f.close])], [f.close], [Sign(";")], ";", "");
    ReadsGap([f.close] + ";" + "");
    ReadsConcat(GAP, " ", [Sign([f.close])] + [Sign(";")], [f.close] + ";", "");
  }

  lemma Semicolon()
    ensures Firm(';')
  {
  }

  lemma ScanClose(rest: string, ps: seq<Piece>)
    requires Scan(rest, false) == Ok(ps)
    ensures Scan("?>" + rest, true) == Ok([Piece(Close, "?>")] + ps)
  {
  }

  lemma SourceScans(f: Form)
    requires ValidForm(f)
    ensures Scan(Source(f), false) == Ok([Piece(Open, "<?php")] + (HeadPieces(f) + FootPieces(f)))
  {
    hide Reads, Scan, ValidForm;
    var foot, t := GAP + ([Sign([f.close])] + [Sign(";")]), " " + ([f.close] + ";");
    ReadsFoot(f);
    ScanNothing(true);
    ScanReads(foot, t, "", []);
    assert t + "" == t;
    ScanOpen(t, foot + []);
    ScanClose("<?php" + t, [Piece(Open, "<?php")] + (foot + []));
    var r, h := "?>" + ("<?php" + t), " " + (f.word + ([f.open] + ("'k'" + (f.sep + "// x"))));
    ReadsHead(f, r);
    ScanReads(HeadPieces(f), h, r, FootPieces(f));
    ScanOpen(h + r, HeadPieces(f) + FootPieces(f));
  }

  lemma PiecesCons(l: Lexeme, rest: seq<Lexeme>)
    ensures Pieces([l] + rest) == l.gap + ([l.token] + Pieces(rest))
    ensures l.gap == [] ==> Pieces([l] + rest) == [l.token] + Pieces(rest)
  {
  }

  lemma FootAre(f: Form)
    ensures Pieces(Foot(f)) == [Remark()] + ([Piece(Close, "?>")] + ([Piece(Open, "<?php")] + (GAP + ([Sign([f.close])] + [Sign(";")]))))
  {
    hide Pieces;
    var end := [Tag([], Symbol, ";")];
    PiecesOne(end[0]);
    assert [] + [Sign(";")] == [Sign(";")];
    PiecesCons(Tag(GAP, Symbol, [f.close]), end);
    var r := [Tag(GAP, Symbol, [f.close])] + end;
    PiecesCons(Tag([], Open, "<?php"), r);
    PiecesCons(Tag([Remark()], Close, "?>"), [Tag([], Open, "<?php")] + r);
  }

  lemma TokensAre(f: Form)
    ensures Pieces(Tokens(f)) == [Piece(Open, "<?php")] + (GAP + ([Word(f.word)] + ([Sign([f.open])] + ([Piece(Quoted, "'k'")] + ([Sign(f.sep)] + Pieces(Foot(f)))))))
  {
    hide Pieces, Foot;
    var r1 := [Tag([], Symbol, f.sep)] + Foot(f);
    PiecesCons(Tag([], Symbol, f.sep), Foot(f));
    PiecesCons(Tag([], Quoted, "'k'"), r1);
    var r2 := [Tag([], Quoted, "'k'")] + r1;
    PiecesCons(Tag([], Symbol, [f.open]), r2);
    var r3 := [Tag([], Symbol, [f.open])] + r2;
    PiecesCons(Tag(GAP, Identifier, f.word), r3);
    PiecesCons(Tag([], Open, "<?php"), [Tag(GAP, Identifier, f.word)] + r3);
  }

  lemma WellFormedOne(l: Lexeme)
    requires IsToken(l.token) && Trivia(l.gap)
    ensures WellFormed([l])
  {
  }

  lemma TokensWellFormed(f: Form)
    ensures WellFormed(Tokens(f)) && Tokens(f) != []
  {
    hide WellFormed;
    var l0, l1, l2, l3, l4 := Tag([], Open, "<?php"), Tag(GAP, Identifier, f.word), Tag([], Symbol, [f.open]), Tag([], Quoted, "'k'"), Tag([], Symbol, f.sep);
    var l5, l7, l8 := Tag([Remark()], Close, "?>"), Tag(GAP, Symbol, [f.close]), Tag([], Symbol, ";");
    WellFormedOne(l0);
    WellFormedOne(l1);
    WellFormedOne(l2);
    WellFormedOne(l3);
    WellFormedOne(l4);
    WellFormedOne(l5);
    WellFormedOne(l7);
    WellFormedOne(l8);
    WellFormedConcat([l7], [l8]);
    WellFormedConcat([l0], [l7] + [l8]);
    WellFormedConcat([l5], [l0] + ([l7] + [l8]));
    WellFormedConcat([l4], Foot(f));
    WellFormedConcat([l3], [l4] + Foot(f));
    WellFormedConcat([l2], [l3] + ([l4] + Foot(f)));
    WellFormedConcat([l1], [l2] + ([l3] + ([l4] + Foot(f))));
    WellFormedConcat([l0], [l1] + ([l2] + ([l3] + ([l4] + Foot(f)))));
  }

  /** The pieces of the scan, put together in the same order. */
  lemma SameOrder(a: seq<Piece>, g: seq<Piece>, w: seq<Piece>, o: seq<Piece>, q: seq<Piece>, c: seq<Piece>, m: seq<Piece>, r: seq<Piece>)
    ensures a + (g + (w + (o + (q + (c + (m + r)))))) + [] == a + ((g + (w + (o + (q + (c + m))))) + (r + []))
  {
  }

  lemma SourcePieces(f: Form)
    requires ValidForm(f)
    ensures Scan(Source(f), false) == Ok(AllPieces(Doc(Tokens(f), [])))
  {
    hide Scan, Pieces, Foot, Tokens, Remark, ValidForm, Source;
    SourceScans(f);
    TokensAre(f);
    FootAre(f);
    var foot := GAP + ([Sign([f.close])] + [Sign(";")]);
    var r := [Piece(Close, "?>")] + ([Piece(Open, "<?php")] + foot);
    assert FootPieces(f) == r + [] by { assert foot + [] == foot && r + [] == r; }
    SameOrder([Piece(Open, "<?php")], GAP, [Word(f.word)], [Sign([f.open])], [Piece(Quoted, "'k'")], [Sign(f.sep)], [Remark()], r);
  }

  /** The statement is what follows the tag. */
  lemma SourceParses(f: Form, statement: seq<Lexeme>)
    requires ValidForm(f) && Balanced(statement) && Tokens(f) == [Tag([], Open, "<?php")] + statement
    ensures Parse(Source(f)) == Ok(Doc(Tokens(f), []))
  {
    hide Balanced, Scan, Parse, Source, Tokens, ValidForm;
    SourcePieces(f);
    TokensWellFormed(f);
    OneBalanced(Tag([], Open, "<?php"));
    BalancedConcat([Tag([], Open, "<?php")], statement);
    ScanParse(Source(f), Doc(Tokens(f), []));
  }

  lemma KeyOfK()
    ensures LiteralKey(Piece(Quoted, "'k'")) == Ok("k")
  {
    var t := "'k'";
    assert t[1..|t| - 1] == "k";
    assert "k"[1..] == "";
    assert DecodeKey("", '\'') == Ok("");
    assert [t[1]] + "" == "k";
    assert DecodeKey("k", '\'') == Ok("k");
  }

  lemma RemarkLine()
    ensures IsLineComment(Remark())
  {
    assert "// x"[1] == '/' && "/*"[1] == '*';
  }

  // ----- a swallowed constant -----

  /** `<?php define('k',// x?><?php );` */
  const COMMENTED := Form("define", '(', ",", ')')

  function Arguments(): seq<Part> {
    [Part([Tag([], Quoted, "'k'")], [Tag([], Symbol, ",")]), Part([Tag([Remark()], Close, "?>"), Tag([], Open, "<?php")], [])]
  }

  function DefineCall(): seq<Lexeme> {
    [Tag(GAP, Identifier, "define"), Tag([], Symbol, "(")] + Flat(Arguments()) + [Tag(GAP, Symbol, ")")] + [Tag([], Symbol, ";")]
  }

  lemma ArgumentsAre()
    ensures Flat(Arguments()) == [Tag([], Quoted, "'k'"), Tag([], Symbol, ","), Tag([Remark()], Close, "?>"), Tag([], Open, "<?php")]
    ensures ValidParts(Arguments())
  {
    hide Neutral;
    var a, b := Arguments()[0], Arguments()[1];
    SingleNeutral(a.arg[0]);
    SingleNeutral(b.arg[0]);
    SingleNeutral(b.arg[1]);
    NeutralConcat([b.arg[0]], [b.arg[1]]);
    assert [b.arg[0]] + [b.arg[1]] == b.arg;
    FlatPair(a, b, []);
    assert [a, b] + [] == [a, b];
    FlatEmptyIs([]);
  }

  lemma CallReads()
    ensures CallAt(DefineCall()) == Ok(Define(0, "k", 4, 6, 7)) && Balanced(DefineCall())
  {
    hide CallAt, Balanced, Flat, ValidParts;
    ArgumentsAre();
    var args := Arguments();
    KeyOfK();
    var name, open, close, end := Tag(GAP, Identifier, "define"), Tag([], Symbol, "("), Tag(GAP, Symbol, ")"), Tag([], Symbol, ";");
    CallIs(DefineCall(), name, open, args, close, [end], "k");
    PartsBalanced(args);
    var g := [open] + Flat(args) + [close];
    assert g[1..|g| - 1] == Flat(args);
    GroupBalanced(g);
    OneBalanced(name);
    OneBalanced(end);
    BalancedConcat(g, [end]);
    BalancedConcat([name], g + [end]);
    assert [name] + (g + [end]) == DefineCall();
  }

  lemma CallTokensAre()
    ensures var ls := Tokens(COMMENTED);
      && ls == [Tag([], Open, "<?php")] + DefineCall() && |ls| == 9 && ls[1..] == DefineCall() && |DefineCall()| == 8
      && ls[0].Txt() == "<?php" && ls[1].Txt() == "define" && ls[2].Txt() == "(" && DefineCall()[1].Txt() == "("
      && ls[5] == Tag([Remark()], Close, "?>") && ls[8].Txt() == ";"
  {
  }

  /** A tag, the call, and its semicolon. */
  lemma OneCall(ls: seq<Lexeme>, call: seq<Lexeme>)
    requires |ls| == 9 && ls[1..] == call && |call| == 8 && call[1].Txt() == "(" && CallAt(call) == Ok(Define(0, "k", 4, 6, 7))
    requires ls[0].Txt() == "<?php" && ls[1].Txt() == "define" && ls[2].Txt() == "(" && ls[8].Txt() == ";"
    ensures Walk(ls, 0) == Ok([Define(1, "k", 5, 7, 8)])
  {
    hide CallAt, Walk, IsDefine, Suppressed, DefineAt;
    TagStarts(ls);
    DefineBehind(ls[..1], ls);
    DefineIs(ls, 1, Define(0, "k", 4, 6, 7));
    WalkEnd(ls);
    NoDefine(ls, 8);
    WalkElse(ls, 8);
    WalkHere(ls, 1, Define(1, "k", 5, 7, 8), []);
    WalkElse(ls, 0);
    assert [Define(1, "k", 5, 7, 8)] + [] == [Define(1, "k", 5, 7, 8)];
  }

  lemma TagStarts(ls: seq<Lexeme>)
    requires |ls| > 1 && ls[0].Txt() == "<?php"
    ensures !IsDefine(ls, 0) && !Suppressed(ls[..1], 1)
  {
  }

  lemma DefineForm()
    ensures ValidForm(COMMENTED)
  {
  }

  lemma CommentedWalk()
    ensures Parse(Source(COMMENTED)) == Ok(Doc(Tokens(COMMENTED), [])) && Walk(Tokens(COMMENTED), 0) == Ok([Define(1, "k", 5, 7, 8)])
  {
    hide CallAt, Walk, DefineCall, Tokens, Parse, Source, ValidForm, Balanced;
    DefineForm();
    CallTokensAre();
    CallReads();
    SourceParses(COMMENTED, DefineCall());
    OneCall(Tokens(COMMENTED), DefineCall());
  }

  lemma OneEntry(ls: seq<Lexeme>, ds: seq<Define>)
    requires AllWithin(ls, ds) && |ds| == 1
    ensures forall k :: Count(Entries(ls, ds), k) <= 1
  {
  }

  /** Some literal is not found after it was written. */
  lemma CommentedLost(anchor: string) returns (w: string)
    ensures IsLiteral(w) && !SetsAll(Source(COMMENTED), map["k" := w], ["k"], anchor)
  {
    hide Parse, Walk, IsLiteral, SetsAll, SingleQuoted, DefineCall, Flat, IsLineComment, Remark, Source, Tokens;
    CommentedWalk();
    CallTokensAre();
    var values := map["k" := SingleQuoted("")];
    QuotedIsLiteral("");
    Manages1("k", SingleQuoted(""));
    var ls, ds := Tokens(COMMENTED), [Define(1, "k", 5, 7, 8)];
    WalkWithin(ls, 0);
    assert Swallowed(ls[5]) by { RemarkLine(); }
    assert ds[0].key in values && !Unswallowed(ls, ds, values, 0, 1);
    assert Constants(Source(COMMENTED)) == Ok(Entries(ls, ds));
    OneEntry(ls, ds);
    var key;
    key, w := SwallowedKeyLost(Source(COMMENTED), values, ["k"], anchor);
    assert values[key := w] == map["k" := w];
  }

  // ----- a swallowed array value -----

  /** `<?php return['k'=>// x?><?php ];` */
  const RETURNED := Form("return", '[', "=>", ']')

  function OnlyEntry(): Part { Part([Tag([], Quoted, "'k'"), Tag([], Symbol, "=>"), Tag([Remark()], Close, "?>"), Tag([], Open, "<?php")], []) }

  function View(): ArrayView { ArrayView([Tag([], Symbol, "[")], [OnlyEntry()], Tag(GAP, Symbol, "]")) }

  lemma ViewIs()
    ensures ValidArray(View()) && Unparse(View()) == Tokens(RETURNED)[2..8]
  {
    hide Neutral, LiteralKey;
    var p := OnlyEntry();
    SingleNeutral(p.arg[0]);
    SingleNeutral(p.arg[1]);
    SingleNeutral(p.arg[2]);
    SingleNeutral(p.arg[3]);
    NeutralConcat([p.arg[2]], [p.arg[3]]);
    NeutralConcat([p.arg[1]], [p.arg[2]] + [p.arg[3]]);
    NeutralConcat([p.arg[0]], [p.arg[1]] + ([p.arg[2]] + [p.arg[3]]));
    assert [p.arg[0]] + ([p.arg[1]] + ([p.arg[2]] + [p.arg[3]])) == p.arg;
    KeyOfK();
    assert PartKey(p) == Ok("k");
    assert [p][1..] == [];
    assert Flat([p]) == p.arg + [] + [];
  }

  lemma ReturnTokensAre()
    ensures var ls := Tokens(RETURNED);
      && |ls| == 9 && ls == [Tag([], Open, "<?php")] + ([Tag(GAP, Identifier, "return")] + (Unparse(View()) + [Tag([], Symbol, ";")]))
      && ls[2..8] == Unparse(View()) && ls[2..] == Unparse(View()) + ls[8..]
      && ls[0].Txt() == "<?php" && ls[1].Txt() == "return" && ls[2].Txt() == "[" && ls[8].Txt() == ";"
  {
    hide ValidArray, Remark, Flat;
    ViewIs();
    var ls := Tokens(RETURNED);
    assert ls[2..] == ls[2..8] + ls[8..];
  }

  lemma ReturnForm()
    ensures ValidForm(RETURNED)
  {
  }

  lemma ReturnParses()
    ensures Parse(Source(RETURNED)) == Ok(Doc(Tokens(RETURNED), []))
  {
    hide Parse, Source, Tokens, Balanced, Unparse, ValidForm;
    ReturnForm();
    ReturnTokensAre();
    StatementBalanced();
    SourceParses(RETURNED, [Tag(GAP, Identifier, "return")] + (Unparse(View()) + [Tag([], Symbol, ";")]));
  }

  lemma StatementBalanced()
    ensures Balanced([Tag(GAP, Identifier, "return")] + (Unparse(View()) + [Tag([], Symbol, ";")]))
  {
    hide Balanced, Neutral, Unparse, ValidArray;
    ViewIs();
    UnparseParse(View());
    NeutralBalanced(Unparse(View()));
    OneBalanced(Tag(GAP, Identifier, "return"));
    OneBalanced(Tag([], Symbol, ";"));
    BalancedConcat(Unparse(View()), [Tag([], Symbol, ";")]);
    BalancedConcat([Tag(GAP, Identifier, "return")], Unparse(View()) + [Tag([], Symbol, ";")]);
  }

  lemma BracketCloses(xs: seq<Lexeme>, rest: seq<Lexeme>)
    requires xs == Unparse(View())
    ensures |xs| == 6 && MatchLength(xs + rest, []) == Ok(6)
  {
    hide MatchLength, ParseArray, ValidArray, Neutral, Flat, Split, CheckKeys;
    ViewIs();
    UnparseParse(View());
    assert HeadLength(xs) == Ok(1);
    R.SliceSteps(xs, 1);
    assert xs[0..] == xs && |xs| == |Tokens(RETURNED)[2..8]| == 6;
    R.MatchWithin(xs, rest, []);
  }

  lemma OneReturn(ls: seq<Lexeme>)
    requires |ls| == 9 && ls[0].Txt() == "<?php" && ls[1].Txt() == "return" && ls[2].Txt() == "[" && ls[8].Txt() == ";"
    requires MatchLength(ls[2..], []) == Ok(6) && ParseArray(ls[2..8]).Ok?
    ensures Returned(ls) == Ok((2, 8))
  {
    hide MatchLength, ParseArray;
    assert IsReturn(ls, 1) && !IsReturn(ls, 0);
    assert NextReturn(ls, 1) == Ok(1) && NextReturn(ls, 9) == Ok(9);
    assert !FoldsTo("[", "array");
    assert ArrayEnd(ls, 2) == Ok(8);
  }

  lemma ReturnReads()
    ensures Read(Source(RETURNED), ["k"]) == Value([Tag([Remark()], Close, "?>"), Tag([], Open, "<?php")])
  {
    hide Parse, Source, Tokens, Returned, ParseArray, Unparse, ValidArray, MatchLength, PartKey, Remark;
    ReturnParses();
    ReturnTokensAre();
    ViewIs();
    UnparseParse(View());
    BracketCloses(Unparse(View()), Tokens(RETURNED)[8..]);
    OneReturn(Tokens(RETURNED));
    EntryK();
    assert FindKey(View().parts, "k") == 0;
    assert ["k"][1..] == [];
  }

  lemma EntryK()
    ensures PartKey(OnlyEntry()) == Ok("k") && OnlyEntry().arg[2..] == [Tag([Remark()], Close, "?>"), Tag([], Open, "<?php")]
  {
    KeyOfK();
  }

  /** The value is there, and a long literal that is written over it is not read back. */
  lemma ReturnedLost()
    ensures Read(Source(RETURNED), ["k"]).Value? && !Placeable(Source(RETURNED), ["k"])
    ensures var w := SingleQuoted(Long(|Source(RETURNED)| + 1));
      PatchArray(Source(RETURNED), ["k"], w).Ok? && ReadText(PatchArray(Source(RETURNED), ["k"], w).value, ["k"]) != Some(w)
  {
    hide Read, PatchArray, ReadText, Source, SingleQuoted, IsLineComment, Remark;
    ReturnReads();
    RemarkLine();
    SwallowedLost(Source(RETURNED), ["k"]);
  }
}
