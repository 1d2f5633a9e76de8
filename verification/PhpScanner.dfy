/** scanPHP as the loop it is: an index runs over the source, and tokens and
    comments are appended with their byte spans. */
module PhpScanner {
  import opened Text
  import opened PhpLexer
  import opened PhpTokens
  import opened PhpSplice
  import opened PhpArrayPatch

  /** phpToken */
  datatype Token = Token(text: string, kind: Kind, start: nat, end: nat)

  /** phpDocument */
  datatype Document = Document(tokens: seq<Token>, comments: seq<Token>)

  /** The piece p with its span. */
  function Spanned(p: Piece, at: nat): Token { Token(p.text, p.kind, at, at + |p.text|) }

  /** The spans of the tokens, or of the comments, among the pieces. */
  function TokenSpans(ps: seq<Piece>): seq<Token> {
    if ps == [] then []
    else
      var rest, p := ps[..|ps| - 1], ps[|ps| - 1];
      TokenSpans(rest) + if IsToken(p) then [Spanned(p, |Flatten(rest)|)] else []
  }

  function CommentSpans(ps: seq<Piece>): seq<Token> {
    if ps == [] then []
    else
      var rest, p := ps[..|ps| - 1], ps[|ps| - 1];
      CommentSpans(rest) + if p.kind == Comment then [Spanned(p, |Flatten(rest)|)] else []
  }

  /** The tokens are those of the lexemes ls. */
  ghost predicate Same(tokens: seq<Token>, ls: seq<Lexeme>) {
    |tokens| == |ls| && forall i :: 0 <= i < |ls| ==> tokens[i].text == ls[i].Txt() && tokens[i].kind == ls[i].token.kind
  }

  /** They stand where those of the document stand. */
  ghost predicate Located(tokens: seq<Token>, ls: seq<Lexeme>) {
    Same(tokens, ls) && forall i :: 0 <= i < |ls| ==> tokens[i].start == Start(ls, i) && tokens[i].end == End(ls, i)
  }

  // ----- one step of the scan -----

  /** What is left to scan, behind the pieces that are done. */
  function Resume(done: seq<Piece>, r: Result<seq<Piece>, PhpError>): Result<seq<Piece>, PhpError> {
    match r case Err(e) => Err(e) case Ok(ps) => Ok(done + ps)
  }

  /** The state of the loop: the scan of the source is the pieces done and the scan
      of the rest. */
  ghost predicate Scanning(src: string, done: seq<Piece>, i: nat, php: bool, doc: Document) {
    && i <= |src| && Flatten(done) == src[..i]
    && Scan(src, false) == Resume(done, Scan(src[i..], php))
    && doc.tokens == TokenSpans(done) && doc.comments == CommentSpans(done)
  }

  function Noted(doc: Document, p: Piece, at: nat): Document {
    if IsToken(p) then doc.(tokens := doc.tokens + [Spanned(p, at)])
    else if p.kind == Comment then doc.(comments := doc.comments + [Spanned(p, at)])
    else doc
  }

  lemma Step(src: string, done: seq<Piece>, i: nat, php: bool, doc: Document, p: Piece)
    requires Scanning(src, done, i, php, doc) && i < |src| && Lex(src[i..], php) == Ok(p) && p.text != ""
    ensures i + |p.text| <= |src| && p.text == src[i..i + |p.text|]
    ensures Scanning(src, done + [p], i + |p.text|, PhpLexer.After(p, php), Noted(doc, p, i))
  {
    hide Lex, Flatten;
    var s, n := src[i..], |p.text|;
    FlattenConcat(done, [p]);
    FlattenOne(p);
    assert p.text == s[..n] == src[i..i + n];
    assert src[..i + n] == src[..i] + src[i..i + n];
    assert s[n..] == src[i + n..];
    StepScan(src, done, s, php, p);
    assert (done + [p])[..|done|] == done;
  }

  lemma StepScan(src: string, done: seq<Piece>, s: string, php: bool, p: Piece)
    requires s != "" && Lex(s, php) == Ok(p) && Scan(src, false) == Resume(done, Scan(s, php))
    ensures Scan(src, false) == Resume(done + [p], Scan(s[|p.text|..], PhpLexer.After(p, php)))
  {
    hide Lex;
    var r := Scan(s[|p.text|..], PhpLexer.After(p, php));
    if r.Ok? { assert done + ([p] + r.value) == done + [p] + r.value; }
  }

  lemma StepFails(src: string, done: seq<Piece>, i: nat, php: bool, doc: Document)
    requires Scanning(src, done, i, php, doc) && i < |src| && Lex(src[i..], php).Err?
    ensures Scan(src, false) == Err(Lex(src[i..], php).error)
  {
  }

  lemma Finished(src: string, done: seq<Piece>, php: bool, doc: Document)
    requires Scanning(src, done, |src|, php, doc)
    ensures Scan(src, false) == Ok(done)
  {
    assert src[|src|..] == "";
    assert done + [] == done;
  }

  // ----- the inner loops -----

  /** The loop over a line comment. */
  method LineComment(src: string, start: nat) returns (i: nat)
    requires start < |src|
    ensures start <= i <= |src| && i == start + LineLength(src[start..])
  {
    i := start;
    while i < |src| && src[i] != '\n' && src[i] != '\r' && !("?>" <= src[i..])
      invariant start <= i <= |src|
      invariant LineLength(src[start..]) == i - start + LineLength(src[i..])
    {
      assert src[i..][1..] == src[i + 1..];
      i := i + 1;
    }
  }

  function QuotedFrom(src: string, start: nat, i: nat, quote: char): int {
    if i > |src| || QuotedLength(src[i..], quote) == 0 then 0 else i - start - 1 + QuotedLength(src[i..], quote)
  }

  /** The loop over a quoted string: the offset behind the closing quote. */
  method QuotedString(src: string, start: nat, quote: char) returns (i: nat, closed: bool)
    requires start < |src|
    ensures closed <==> QuotedLength(src[start + 1..], quote) > 0
    ensures closed ==> i == start + 1 + QuotedLength(src[start + 1..], quote)
  {
    i := start + 1;
    closed := false;
    while i < |src|
      invariant start < i && !closed
      invariant QuotedLength(src[start + 1..], quote) == QuotedFrom(src, start, i, quote)
    {
      var s := src[i..];
      if src[i] == '\\' {
        if i + 2 <= |src| { assert s[2..] == src[i + 2..]; }
        i := i + 2;
        continue;
      }
      if src[i] == quote {
        i := i + 1;
        closed := true;
        break;
      }
      assert s[1..] == src[i + 1..];
      i := i + 1;
    }
  }

  method IdentifierRest(src: string, start: nat) returns (i: nat)
    requires start <= |src|
    ensures i == start + IdentifierLength(src[start..])
  {
    i := start;
    while i < |src| && IsIdentifierPart(src[i])
      invariant start <= i <= |src|
      invariant IdentifierLength(src[start..]) == i - start + IdentifierLength(src[i..])
    {
      assert src[i..][1..] == src[i + 1..];
      i := i + 1;
    }
  }

  // ----- brackets -----

  /** One token of the search for a closing bracket. */
  lemma MatchStep(ls: seq<Lexeme>, i: nat, stack: seq<string>)
    requires i < |ls|
    ensures
      var m := MatchLength(ls[i..], stack);
      match Feed(stack, ls[i].Txt())
      case None => m == Err(Unbalanced)
      case Some(s) =>
        if IsClose(ls[i].Txt()) && s == [] then m == Ok(1)
        else m == match MatchLength(ls[i + 1..], s) case Err(e) => Err(e) case Ok(n) => Ok(n + 1)
  {
  }

  /** The search has come to token i with this stack. */
  ghost predicate Matches(ls: seq<Lexeme>, open: nat, i: nat, stack: seq<string>)
    requires open <= i <= |ls|
  {
    MatchLength(ls[open..], []) == match MatchLength(ls[i..], stack) case Err(e) => Err(e) case Ok(n) => Ok(i - open + n)
  }

  lemma MatchEnds(ls: seq<Lexeme>, open: nat, i: nat, stack: seq<string>)
    requires open <= i <= |ls| && Matches(ls, open, i, stack)
    ensures i == |ls| ==> MatchLength(ls[open..], []) == Err(UnterminatedExpression)
    ensures i < |ls| ==>
      match Feed(stack, ls[i].Txt())
      case None => MatchLength(ls[open..], []) == Err(Unbalanced)
      case Some(s) => if IsClose(ls[i].Txt()) && s == [] then MatchLength(ls[open..], []) == Ok(i - open + 1) else Matches(ls, open, i + 1, s)
  {
    hide Feed, IsClose;
    if i < |ls| {
      hide MatchLength;
      MatchStep(ls, i, stack);
    } else {
      assert ls[i..] == [];
    }
  }

  /** phpMatching: the index of the bracket that closes the one at open. */
  method Matching(tokens: seq<Token>, open: nat, ghost ls: seq<Lexeme>) returns (r: Result<nat, PhpError>)
    requires Same(tokens, ls) && open <= |tokens|
    ensures r == match MatchLength(ls[open..], []) case Err(e) => Err(e) case Ok(n) => Ok(open + n - 1)
  {
    hide MatchLength, Matches;
    var stack: seq<string> := [];
    var i := open;
    MatchBegins(ls, open);
    while i < |tokens|
      invariant open <= i <= |tokens| && Matches(ls, open, i, stack)
    {
      var t := tokens[i].text;
      MatchEnds(ls, open, i, stack);
      if t == "[" || t == "(" || t == "{" {
        stack := stack + [t];
      } else if t == "]" || t == ")" || t == "}" {
        if |stack| == 0 { return Err(Unbalanced); }
        var want := if t == "]" then "[" else if t == ")" then "(" else "{";
        if stack[|stack| - 1] != want { return Err(Unbalanced); }
        stack := stack[..|stack| - 1];
        if |stack| == 0 { return Ok(i); }
      }
      i := i + 1;
    }
    MatchEnds(ls, open, i, stack);
    return Err(UnterminatedExpression);
  }

  lemma MatchBegins(ls: seq<Lexeme>, open: nat)
    requires open <= |ls|
    ensures Matches(ls, open, open, [])
  {
  }

  /** The bracket check at the end of the scan. */
  method CheckAll(tokens: seq<Token>, ghost ls: seq<Lexeme>) returns (e: Option<PhpError>)
    requires Same(tokens, ls)
    ensures e == CheckBrackets(ls)
  {
    hide MatchLength;
    var i := 0;
    assert ls[0..] == ls;
    while i < |tokens|
      invariant i <= |tokens| && CheckBrackets(ls) == CheckBrackets(ls[i..])
    {
      var t := tokens[i].text;
      assert ls[i..][0] == ls[i] && ls[i..][1..] == ls[i + 1..];
      if t == "[" || t == "(" || t == "{" {
        var close := Matching(tokens, i, ls);
        match close
        case Err(f) => return Some(f);
        case Ok(c) =>
          assert ls[i..][c + 1 - i..] == ls[c + 1..];
          i := c;
      } else if t == "]" || t == ")" || t == "}" {
        return Some(Unbalanced);
      }
      i := i + 1;
    }
    return None;
  }

  // ----- the tokens of a document -----

  lemma {:induction false} SpansTrivia(a: seq<Piece>, t: seq<Piece>)
    requires Trivia(t)
    ensures TokenSpans(a + t) == TokenSpans(a)
    decreases |t|
  {
    if t == [] {
      assert a + t == a;
    } else {
      var n := |t| - 1;
      assert (a + t)[..|a + t| - 1] == a + t[..n];
      assert t[n] in t;
      SpansTrivia(a, t[..n]);
    }
  }

  lemma SpansSnoc(a: seq<Piece>, p: Piece)
    ensures TokenSpans(a + [p]) == TokenSpans(a) + if IsToken(p) then [Spanned(p, |Flatten(a)|)] else []
  {
  }

  /** Token i stands at the offsets of lexeme i. */
  lemma {:induction false} LexemeSpans(ls: seq<Lexeme>)
    requires WellFormed(ls)
    ensures Located(TokenSpans(Pieces(ls)), ls)
    decreases |ls|
  {
    hide Flatten, Pieces, IsToken, Start, End, TokenSpans;
    var spans := TokenSpans(Pieces(ls));
    if ls == [] {
      NoPieces();
    } else {
      var n := |ls| - 1;
      var l := ls[n];
      assert l in ls;
      LexemeSpans(ls[..n]);
      PiecesSnoc(ls, n);
      assert ls[..n + 1] == ls;
      SpansTrivia(Pieces(ls[..n]), l.gap);
      SpansSnoc(Pieces(ls[..n]) + l.gap, l.token);
      FlattenConcat(Pieces(ls[..n]) + l.gap, [l.token]);
      FlattenOne(l.token);
      LastSpan(ls, spans);
      forall i | 0 <= i < n
        ensures Start(ls, i) == Start(ls[..n], i) && End(ls, i) == End(ls[..n], i) && spans[i] == TokenSpans(Pieces(ls[..n]))[i] && ls[i] == ls[..n][i]
      {
        SpanStays(ls, n, i);
      }
    }
  }

  lemma SpanStays(ls: seq<Lexeme>, n: nat, i: nat)
    requires i < n <= |ls|
    ensures Start(ls, i) == Start(ls[..n], i) && End(ls, i) == End(ls[..n], i) && ls[i] == ls[..n][i]
  {
    hide Flatten, Pieces;
    assert ls[..n][..i] == ls[..i] && ls[..n][..i + 1] == ls[..i + 1];
  }

  lemma LastSpan(ls: seq<Lexeme>, spans: seq<Token>)
    requires ls != []
    requires
      var n := |ls| - 1;
      var at := |Flatten(Pieces(ls[..n]) + ls[n].gap)|;
      spans == TokenSpans(Pieces(ls[..n])) + [Spanned(ls[n].token, at)] && |TokenSpans(Pieces(ls[..n]))| == n
      && |Flatten(Pieces(ls[..n + 1]))| == at + |ls[n].Txt()|
    ensures
      var n := |ls| - 1;
      |spans| == n + 1 && spans[n].start == Start(ls, n) && spans[n].end == End(ls, n) && spans[n].text == ls[n].Txt() && spans[n].kind == ls[n].token.kind
  {
  }

  lemma NoPieces()
    ensures TokenSpans(Pieces([])) == []
  {
  }

  lemma DocSpans(src: string, done: seq<Piece>)
    requires Scan(src, false) == Ok(done)
    ensures var d := Group([], done);
      && Located(TokenSpans(done), d.lexemes) && AllPieces(d) == done
      && (Parse(src) == if d.lexemes == [] then Err(NoCode) else match CheckBrackets(d.lexemes) case Some(e) => Err(e) case None => Ok(d))
  {
    hide Scan, Flatten, Pieces;
    var d := Group([], done);
    GroupPieces([], done);
    GroupWellFormed([], done);
    assert [] + done == done;
    LexemeSpans(d.lexemes);
    SpansTrivia(Pieces(d.lexemes), d.tail);
  }

  /** The scan has got past blanks, tags, comments and unsupported strings. */
  predicate AtWord(s: string)
    requires s != ""
  {
    && !IsBlank(s[0]) && !("?>" <= s) && s[0] != '#' && !("//" <= s) && !("/*" <= s) && !("<<<" <= s) && s[0] != '`'
  }

  lemma WordBranches(s: string)
    requires s != "" && AtWord(s)
    ensures var c, r := s[0], LexPhp(s);
      if c == '\'' || c == '"' then
        var n := QuotedLength(s[1..], c);
        r == if n == 0 then Err(UnterminatedString) else Ok(Piece(Quoted, s[..n + 1]))
      else if IsIdentifierStart(c) then r == Ok(Piece(Identifier, s[..1 + IdentifierLength(s[1..])]))
      else r == Ok(Piece(Symbol, s[..SymbolLength(s)]))
  {
  }

  lemma TriviaBranches(s: string)
    requires s != "" && !IsBlank(s[0])
    ensures var c, r := s[0], LexPhp(s);
      if "?>" <= s then r == Ok(Piece(Close, "?>"))
      else if c == '#' || "//" <= s then r == Ok(Piece(Comment, s[..LineLength(s)]))
      else if "/*" <= s then r == LexBlockComment(s)
      else "<<<" <= s || c == '`' ==> r == Err(UnsupportedString)
  {
    hide LineLength, QuotedLength, IdentifierLength, SymbolLength, LexBlockComment;
    assert "?>" <= s ==> s[..2] == "?>";
  }

  lemma Cut(src: string, start: nat, n: nat)
    requires start + n <= |src|
    ensures src[start..][..n] == src[start..start + n] && src[start..][n..] == src[start + n..] && |src[start..start + n]| == n
  {
  }

  /** The last three branches: strings, identifiers and symbols. */
  method WordToken(src: string, start: nat) returns (r: Result<Token, PhpError>)
    requires start < |src| && AtWord(src[start..])
    ensures r == match LexPhp(src[start..]) case Err(e) => Err(e) case Ok(p) => Ok(Spanned(p, start))
  {
    hide QuotedLength, IdentifierLength, LexPhp, IsBlank, IsIdentifierStart, SymbolLength, AtWord;
    var i := start;
    var c := src[i];
    WordBranches(src[start..]);
    Cut(src, start, 1);
    if c == '\'' || c == '"' {
      var closed;
      i, closed := QuotedString(src, start, c);
      if !closed { return Err(UnterminatedString); }
      Cut(src, start, i - start);
      return Ok(Token(src[start..i], Quoted, start, i));
    }
    if IsIdentifierStart(c) {
      i := IdentifierRest(src, start + 1);
      Cut(src, start, i - start);
      return Ok(Token(src[start..i], Identifier, start, i));
    }
    i := SymbolEnd(src, start);
    Cut(src, start, i - start);
    return Ok(Token(src[start..i], Symbol, start, i));
  }

  /** The branches of the loop in PHP code: what starts at start, a blank, a comment
      or a token, and where it ends. */
  method PhpToken(src: string, start: nat) returns (r: Result<Token, PhpError>)
    requires start < |src|
    ensures r == match LexPhp(src[start..]) case Err(e) => Err(e) case Ok(p) => Ok(Spanned(p, start))
  {
    hide LineLength, QuotedLength, IdentifierLength, LexPhp, IsBlank, IsIdentifierStart, Index, SymbolLength;
    var i := start;
    var c := src[i];
    ghost var s := src[start..];
    assert s[0] == c;
    Cut(src, start, 1);
    if IsBlank(c) {
      i := i + 1;
      BlankBranch(s);
      return Ok(Token(src[start..i], Blank, start, i));
    }
    TriviaBranches(s);
    if "?>" <= src[i..] {
      i := i + 2;
      return Ok(Token("?>", Close, start, i));
    }
    if c == '#' || "//" <= src[i..] {
      i := LineComment(src, start);
      Cut(src, start, i - start);
      return Ok(Token(src[start..i], Comment, start, i));
    }
    if "/*" <= src[i..] {
      Cut(src, start, 2);
      var n := Index(src[i + 2..], "*/");
      if n < 0 { return Err(UnterminatedComment); }
      i := i + n + 4;
      Cut(src, start, n + 4);
      return Ok(Token(src[start..i], Comment, start, i));
    }
    if "<<<" <= src[i..] || c == '`' { return Err(UnsupportedString); }
    r := WordToken(src, start);
  }

  /** The operators of more than one character. */
  method SymbolEnd(src: string, start: nat) returns (i: nat)
    requires start < |src|
    ensures i == start + SymbolLength(src[start..])
  {
    i := start + 1;
    if "=>" <= src[start..] || "->" <= src[start..] || "::" <= src[start..] {
      i := start + 2;
    } else if "..." <= src[start..] {
      i := start + 3;
    }
  }

  lemma BlankBranch(s: string)
    requires s != "" && IsBlank(s[0])
    ensures LexPhp(s) == Ok(Piece(Blank, s[..1]))
  {
  }

  /** The branch of the loop outside PHP code: skips to the next opening tag. */
  method HtmlToken(src: string, start: nat) returns (r: Result<Option<nat>, PhpError>)
    requires start < |src|
    ensures var s := src[start..];
      var n := Index(s, "<?");
      match r
      case Err(e) => e == UnsupportedTag && n >= 0 && LexHtml(s[n..]) == Err(e)
      case Ok(None) => n < 0 && LexHtml(s) == Ok(Piece(Html, s))
      case Ok(Some(i)) => n >= 0 && i == start + n && i + 5 <= |src| && src[i..i + 5] == "<?php" && LexHtml(s[n..]) == Ok(Piece(Open, "<?php"))
    ensures var s := src[start..];
      Index(s, "<?") > 0 ==> LexHtml(s) == Ok(Piece(Html, s[..Index(s, "<?")]))
  {
    var n := Index(src[start..], "<?");
    if n < 0 { return Ok(None); }
    var i := start + n;
    ghost var s := src[start..];
    assert src[i..] == s[n..] && "<?" <= s[n..];
    if !("<?php" <= src[i..]) { return Err(UnsupportedTag); }
    assert src[i..][..5] == "<?php" == src[i..i + 5];
    return Ok(Some(i));
  }

  /** The state after skipping HTML. */
  lemma SkipHtml(src: string, done: seq<Piece>, i: nat, doc: Document, n: nat) returns (done': seq<Piece>)
    requires Scanning(src, done, i, false, doc) && i < |src| && n < |src[i..]|
    requires n > 0 ==> LexHtml(src[i..]) == Ok(Piece(Html, src[i..][..n]))
    ensures Scanning(src, done', i + n, false, doc) && src[i + n..] == src[i..][n..]
  {
    hide LexHtml;
    done' := done;
    if n > 0 {
      Step(src, done, i, false, doc, Piece(Html, src[i..][..n]));
      done' := done + [Piece(Html, src[i..][..n])];
    }
  }

  lemma LexModes(s: string)
    requires s != ""
    ensures Lex(s, true) == LexPhp(s) && Lex(s, false) == LexHtml(s)
  {
  }

  lemma LexNonempty(s: string)
    requires s != "" && LexPhp(s).Ok?
    ensures LexPhp(s).value.text != ""
  {
  }

  /** scanPHP */
  method ScanPHP(src: string) returns (r: Result<Document, PhpError>)
    ensures r.Ok? <==> Parse(src).Ok?
    ensures r.Err? ==> Parse(src) == Err(r.error)
    ensures r.Ok? ==>
      var d := Parse(src).value;
      && Located(r.value.tokens, d.lexemes)
      && r.value.tokens == TokenSpans(AllPieces(d)) && r.value.comments == CommentSpans(AllPieces(d))
  {
    hide LexPhp, LexHtml, Lex, Flatten, Scan, Located, Index, Scanning, Parse, TokenSpans, CommentSpans, Pieces;
    var doc := Document([], []);
    var inPHP := false;
    var i := 0;
    ghost var done: seq<Piece> := [];
    Begins(src);
    while i < |src|
      invariant Scanning(src, done, i, inPHP, doc)
    {
      Bounds(src, done, i, inPHP, doc);
      LexModes(src[i..]);
      if !inPHP {
        var next := HtmlToken(src, i);
        ghost var n := Index(src[i..], "<?");
        match next
        case Ok(None) =>
          Step(src, done, i, false, doc, Piece(Html, src[i..]));
          done := done + [Piece(Html, src[i..])];
          i := |src|;
          break;
        case Err(e) =>
          done := SkipHtml(src, done, i, doc, n);
          Bounds(src, done, i + n, false, doc);
          LexModes(src[i + n..]);
          StepFails(src, done, i + n, false, doc);
          ScanFails(src);
          return Err(e);
        case Ok(Some(j)) =>
          done := SkipHtml(src, done, i, doc, n);
          i := j;
          LexModes(src[i..]);
          Step(src, done, i, false, doc, Piece(Open, "<?php"));
          done := done + [Piece(Open, "<?php")];
          doc := doc.(tokens := doc.tokens + [Token("<?php", Open, i, i + 5)]);
          i := i + 5;
          inPHP := true;
      } else {
        var next := PhpToken(src, i);
        if next.Err? {
          StepFails(src, done, i, true, doc);
          ScanFails(src);
          return Err(next.error);
        }
        var t := next.value;
        LexNonempty(src[i..]);
        ghost var p := LexPhp(src[i..]).value;
        Step(src, done, i, true, doc, p);
        NotOpened(src[i..]);
        done := done + [p];
        if t.kind == Comment {
          doc := doc.(comments := doc.comments + [t]);
        } else if t.kind != Blank {
          doc := doc.(tokens := doc.tokens + [t]);
        }
        i := t.end;
        inPHP := t.kind != Close;
      }
    }
    Bounds(src, done, i, inPHP, doc);
    Finished(src, done, inPHP, doc);
    DocSpans(src, done);
    ghost var ls := Group([], done).lexemes;
    LocatedSame(doc.tokens, ls);
    if |doc.tokens| == 0 { return Err(NoCode); }
    var e := CheckAll(doc.tokens, ls);
    match e
    case Some(f) => return Err(f);
    case None => return Ok(doc);
  }

  lemma NotOpened(s: string)
    requires s != "" && LexPhp(s).Ok?
    ensures LexPhp(s).value.kind != Open && LexPhp(s).value.kind != Html
  {
  }

  lemma LocatedSame(tokens: seq<Token>, ls: seq<Lexeme>)
    requires Located(tokens, ls)
    ensures Same(tokens, ls) && |tokens| == |ls|
  {
  }

  lemma Begins(src: string)
    ensures Scanning(src, [], 0, false, Document([], []))
  {
    hide Scan;
    assert src[0..] == src && src[..0] == "";
    var r := Scan(src, false);
    if r.Ok? { assert [] + r.value == r.value; }
  }

  lemma Bounds(src: string, done: seq<Piece>, i: nat, php: bool, doc: Document)
    requires Scanning(src, done, i, php, doc)
    ensures i <= |src| && doc.tokens == TokenSpans(done) && doc.comments == CommentSpans(done)
  {
  }

  lemma ScanFails(src: string)
    ensures Scan(src, false).Err? ==> Parse(src) == Err(Scan(src, false).error)
  {
  }
}
