/** A grammar of PHP sources, with every character spelled out: what each kind of piece
    is made of, what may not stand behind it, and what cannot be read. */
module PhpGrammar {
  import opened Text
  import opened PhpLexer
  import opened PhpTokens

  // ----- pieces -----

  /** A letter, a digit, an underscore, or anything beyond ASCII. */
  predicate NameChar(c: char) {
    'a' <= c <= 'z' || 'A' <= c <= 'Z' || '0' <= c <= '9' || c == '_' || c >= '\U{0080}'
  }

  /** From `#` or `//` to the end of the line or the closing tag. */
  predicate LineText(t: string) {
    && (['#'] <= t || ['/', '/'] <= t)
    && '\n' !in t && '\r' !in t && !Has(t, '?', '>')
  }

  /** From an opening sign to the first closing one. */
  predicate BlockText(t: string) {
    |t| >= 4 && t[..2] == ['/', '*'] && t[|t| - 2..] == ['*', '/'] && !Has(t[2..|t| - 2], '*', '/')
  }

  /** What stands between quotes: a backslash goes with the character behind it. */
  predicate Body(t: string, quote: char) {
    if t == "" then true
    else if t[0] == '\\' then |t| >= 2 && Body(t[2..], quote)
    else t[0] != quote && Body(t[1..], quote)
  }

  predicate QuotedText(t: string) {
    |t| >= 2 && (t[0] == '\'' || t[0] == '"') && t[|t| - 1] == t[0] && Body(t[1..|t| - 1], t[0])
  }

  predicate NameText(t: string) {
    t != "" && !('0' <= t[0] <= '9') && forall i :: 0 <= i < |t| ==> NameChar(t[i])
  }

  /** An operator, or one character that starts nothing else. */
  predicate SignText(t: string) {
    || t == "=>" || t == "->" || t == "::" || t == "..."
    || (|t| == 1 && t[0] != ' ' && t[0] != '\t' && t[0] != '\r' && t[0] != '\n' && t[0] != '#' && t[0] != '`' && t[0] != '\'' && t[0] != '"'
        && (NameChar(t[0]) ==> '0' <= t[0] <= '9'))
  }

  /** p is a piece, inside PHP code or outside. */
  predicate IsPiece(p: Piece, php: bool) {
    match p.kind
    case Html => !php && p.text != "" && !Has(p.text, '<', '?')
    case Open => !php && p.text == "<?php"
    case Close => php && p.text == "?>"
    case Blank => php && (p.text == " " || p.text == "\t" || p.text == "\r" || p.text == "\n")
    case Comment => php && (LineText(p.text) || BlockText(p.text))
    case Quoted => php && QuotedText(p.text)
    case Identifier => php && NameText(p.text)
    case Symbol => php && SignText(p.text)
  }

  /** The rest r does not belong to the piece p. */
  predicate Ends(p: Piece, r: string) {
    var t := p.text;
    match p.kind
    case Html => r == "" || ['<', '?'] <= r
    case Comment => LineText(t) ==> r == "" || r[0] == '\n' || r[0] == '\r' || ['?', '>'] <= r
    case Identifier => r == "" || !NameChar(r[0])
    case Symbol =>
      && (t == "=" || t == "-" || t == "?" ==> !(['>'] <= r))
      && (t == ":" ==> !([':'] <= r))
      && (t == "." ==> !(['.', '.'] <= r))
      && (t == "/" ==> !(['/'] <= r) && !(['*'] <= r))
      && (t == "<" ==> !(['<', '<'] <= r))
    case _ => true
  }

  lemma PartIs(s: string, t: string)
    requires t <= s
    ensures s == t + s[|t|..] && t == s[..|t|]
  {
  }

  lemma LexIs(s: string, php: bool, p: Piece)
    requires s != ""
    ensures Lex(s, php) == Ok(p) <==> p.text <= s && IsPiece(p, php) && Ends(p, s[|p.text|..])
  {
    hide LexPhp, LexHtml, IsPiece, Ends;
    if p.text <= s {
      PartIs(s, p.text);
      if php { PhpIs(p, s[|p.text|..]); } else { HtmlIs(p, s[|p.text|..]); }
    }
  }

  lemma HtmlIs(p: Piece, r: string)
    requires p.text + r != ""
    ensures LexHtml(p.text + r) == Ok(p) <==> IsPiece(p, false) && Ends(p, r)
  {
    hide Index, Has;
    var t := p.text;
    var s := t + r;
    assert s[..|t|] == t && "<?" == ['<', '?'];
    NoPair(s, '<', '?');
    FirstPair(t, '<', '?', r);
    if r == "" { assert s == t; }
    OpenIs(t, r);
  }

  lemma OpenIs(t: string, r: string)
    requires t + r != ""
    ensures t == "<?php" ==> LexHtml(t + r) == Ok(Piece(Open, t))
    ensures LexHtml(t + r).Ok? && LexHtml(t + r).value.kind == Open ==> LexHtml(t + r).value.text == "<?php"
  {
  }

  lemma PhpIs(p: Piece, r: string)
    requires p.text + r != ""
    ensures LexPhp(p.text + r) == Ok(p) <==> IsPiece(p, true) && Ends(p, r)
  {
    match p.kind
    case Comment => CommentIs(p, r);
    case Quoted => QuotedIs(p, r);
    case Identifier => NameIs(p, r);
    case Symbol => SignIs(p, r);
    case _ => FixedIs(p, r);
  }

  lemma FixedIs(p: Piece, r: string)
    requires p.text + r != "" && (p.kind == Html || p.kind == Open || p.kind == Close || p.kind == Blank)
    ensures LexPhp(p.text + r) == Ok(p) <==> IsPiece(p, true) && Ends(p, r)
  {
    var t := p.text;
    var s := t + r;
    assert s[..|t|] == t;
    if p.kind == Close && IsPiece(p, true) { assert s[0] == '?' && s[1] == '>'; }
    if p.kind == Blank && IsPiece(p, true) { assert s[0] == t[0]; }
  }

  // ----- comments -----

  lemma {:induction false} LineIs(t: string, r: string)
    ensures LineLength(t + r) == |t| <==>
      '\n' !in t && '\r' !in t && !Has(t, '?', '>') && !(t != "" && t[|t| - 1] == '?' && ['>'] <= r) && (r == "" || r[0] == '\n' || r[0] == '\r' || ['?', '>'] <= r)
  {
    var s := t + r;
    if t == "" {
      assert s == r;
    } else {
      assert s[1..] == t[1..] + r;
      LineIs(t[1..], r);
      HasHead(t, '?', '>');
      assert t == [t[0]] + t[1..];
      assert "?>" <= s <==> t[0] == '?' && (if |t| > 1 then t[1] == '>' else ['>'] <= r) by {
        if "?>" <= s { assert s[0] == t[0] && s[1] == if |t| > 1 then t[1] else r[0]; }
        if t[0] == '?' && (if |t| > 1 then t[1] == '>' else ['>'] <= r) { assert s[0] == '?' && s[1] == '>'; }
      }
    }
  }

  lemma CommentIs(p: Piece, r: string)
    requires p.text + r != "" && p.kind == Comment
    ensures LexPhp(p.text + r) == Ok(p) <==> IsPiece(p, true) && Ends(p, r)
  {
    hide LineLength, Index, Has, LexPhp;
    var t := p.text;
    var s := t + r;
    assert s[..|t|] == t;
    CommentStarts(s);
    if ['#'] <= s || ['/', '/'] <= s {
      LineStarts(t, r);
      LineIs(t, r);
    } else if ['/', '*'] <= s {
      assert "/*" <= s;
      BlockIs(t, r);
      if t != "" { NotLine(t, r); }
    } else if t != "" {
      NotLine(t, r);
      assert !(['/', '*'] <= t);
    }
  }

  /** How comments start. */
  lemma CommentStarts(s: string)
    requires s != ""
    ensures ['#'] <= s || ['/', '/'] <= s ==> LexPhp(s) == Ok(Piece(Comment, s[..LineLength(s)])) && LineLength(s) > 0 && (['/', '/'] <= s ==> LineLength(s) > 1)
    ensures !(['#'] <= s || ['/', '/'] <= s) && ['/', '*'] <= s ==> LexPhp(s) == LexBlockComment(s)
    ensures !(['#'] <= s || ['/', '/'] <= s || ['/', '*'] <= s) ==> LexPhp(s).Err? || LexPhp(s).value.kind != Comment
  {
    hide Index, QuotedLength, IdentifierLength, SymbolLength, LexBlockComment;
    assert "//" == ['/', '/'] && "/*" == ['/', '*'];
  }

  lemma LineStarts(t: string, r: string)
    requires ['#'] <= t + r || ['/', '/'] <= t + r
    ensures !BlockText(t)
    ensures (['#'] <= t || ['/', '/'] <= t) <==> t != "" && (['/', '/'] <= t + r ==> |t| > 1)
  {
    var s := t + r;
    assert t != "" ==> t[0] == s[0];
    assert |t| > 1 ==> t[1] == s[1];
  }

  lemma NotLine(t: string, r: string)
    requires t != "" && !(['#'] <= t + r || ['/', '/'] <= t + r)
    ensures !(['#'] <= t) && !(['/', '/'] <= t)
  {
    var s := t + r;
    assert t[0] == s[0];
    assert |t| > 1 ==> t[1] == s[1];
  }

  lemma BlockIs(t: string, r: string)
    requires "/*" <= t + r
    ensures LexBlockComment(t + r) == Ok(Piece(Comment, t)) <==> BlockText(t)
  {
    hide Index, Has;
    var s := t + r;
    assert s[..|t|] == t && s[0] == '/' && s[1] == '*' && "*/" == ['*', '/'];
    if |t| >= 4 {
      var u, v := t[2..|t| - 2], t[|t| - 2..] + r;
      assert s[2..] == u + v;
      FirstPair(u, '*', '/', v);
      HeadPair(t[|t| - 2..], r, '*', '/');
    }
    if LexBlockComment(s) == Ok(Piece(Comment, t)) { assert |s[..Index(s[2..], "*/") + 4]| == Index(s[2..], "*/") + 4; }
  }

  // ----- strings -----

  lemma {:induction false} ClosedIs(t: string, quote: char, r: string)
    requires t != "" && quote != '\\'
    ensures QuotedLength(t + r, quote) == |t| <==> t[|t| - 1] == quote && Body(t[..|t| - 1], quote)
    decreases |t|
  {
    var s := t + r;
    var b := t[..|t| - 1];
    if t[0] == '\\' {
      if |t| > 2 {
        assert s[2..] == t[2..] + r && t[2..][..|t| - 3] == b[2..];
        ClosedIs(t[2..], quote, r);
      } else if |t| == 2 {
        assert s[2..] == r && b == [t[0]];
      }
    } else if |t| > 1 {
      assert s[1..] == t[1..] + r && t[1..][..|t| - 2] == b[1..];
      ClosedIs(t[1..], quote, r);
    } else {
      assert b == "" && s[1..] == r;
    }
  }

  lemma QuotedIs(p: Piece, r: string)
    requires p.text + r != "" && p.kind == Quoted
    ensures LexPhp(p.text + r) == Ok(p) <==> IsPiece(p, true) && Ends(p, r)
  {
    hide QuotedLength, Body, LexPhp;
    var t := p.text;
    var s := t + r;
    assert s[..|t|] == t;
    QuotedStarts(s);
    if t != "" && |t| > 1 && (t[0] == '\'' || t[0] == '"') {
      assert s[1..] == t[1..] + r && t[1..][..|t| - 2] == t[1..|t| - 1];
      ClosedIs(t[1..], t[0], r);
    }
    if LexPhp(s) == Ok(p) { assert |s[..QuotedLength(s[1..], s[0]) + 1]| == QuotedLength(s[1..], s[0]) + 1; }
  }

  lemma QuotedStarts(s: string)
    requires s != ""
    ensures s[0] == '\'' || s[0] == '"' ==>
      LexPhp(s) == (var n := QuotedLength(s[1..], s[0]); if n == 0 then Err(UnterminatedString) else Ok(Piece(Quoted, s[..n + 1])))
    ensures s[0] != '\'' && s[0] != '"' ==> LexPhp(s).Err? || LexPhp(s).value.kind != Quoted
  {
    hide Index, QuotedLength, IdentifierLength, SymbolLength, LineLength;
    Starts(s);
  }

  /** The first characters of the signs that start something. */
  lemma Starts(s: string)
    requires s != ""
    ensures ("?>" <= s ==> s[0] == '?') && ("//" <= s || "/*" <= s ==> s[0] == '/') && ("<<<" <= s || "<?" <= s ==> s[0] == '<')
  {
  }

  // ----- names and signs -----

  lemma {:induction false} NameLength(t: string, r: string)
    ensures IdentifierLength(t + r) == |t| <==> (forall i :: 0 <= i < |t| ==> NameChar(t[i])) && (r == "" || !NameChar(r[0]))
  {
    if t == "" {
      assert t + r == r;
    } else {
      assert (t + r)[1..] == t[1..] + r && t == [t[0]] + t[1..];
      NameLength(t[1..], r);
    }
  }

  lemma NameIs(p: Piece, r: string)
    requires p.text + r != "" && p.kind == Identifier
    ensures LexPhp(p.text + r) == Ok(p) <==> IsPiece(p, true) && Ends(p, r)
  {
    hide IdentifierLength, LexPhp;
    var t := p.text;
    var s := t + r;
    assert s[..|t|] == t;
    NameStarts(s);
    if t != "" {
      assert s[1..] == t[1..] + r && t == [t[0]] + t[1..];
      NameLength(t[1..], r);
    }
  }

  lemma NameStarts(s: string)
    requires s != ""
    ensures NameChar(s[0]) && !('0' <= s[0] <= '9') ==> LexPhp(s) == Ok(Piece(Identifier, s[..1 + IdentifierLength(s[1..])]))
    ensures !NameChar(s[0]) || '0' <= s[0] <= '9' ==> LexPhp(s).Err? || LexPhp(s).value.kind != Identifier
  {
    hide Index, QuotedLength, IdentifierLength, SymbolLength, LineLength;
    Starts(s);
  }

  lemma SignIs(p: Piece, r: string)
    requires p.text + r != "" && p.kind == Symbol
    ensures LexPhp(p.text + r) == Ok(p) <==> IsPiece(p, true) && Ends(p, r)
  {
    hide LexPhp, SymbolStarts, SymbolLength;
    var t := p.text;
    var s := t + r;
    assert s[..|t|] == t;
    SymbolLexes(s);
    assert |s[..SymbolLength(s)]| == SymbolLength(s);
    if t == "=>" || t == "->" || t == "::" || t == "..." {
      LongSymbol(t, r);
    } else if |t| == 1 {
      OneSymbol(t, r);
    } else if SymbolStarts(s) && SymbolLength(s) > 1 {
      SymbolText(s);
    }
  }

  // ----- whole texts -----

  /** The tags switch between HTML and PHP code. */
  function Turned(p: Piece, php: bool): bool {
    match p.kind case Open => true case Close => false case _ => php
  }

  /** ps are pieces of the grammar, one behind the other, and r may follow them. */
  predicate ArePieces(ps: seq<Piece>, php: bool, r: string) {
    ps == [] || (IsPiece(ps[0], php) && Ends(ps[0], Flatten(ps[1..]) + r) && ArePieces(ps[1..], Turned(ps[0], php), r))
  }

  lemma {:induction false} LexesAre(ps: seq<Piece>, php: bool, r: string)
    ensures Lexes(ps, php, r) <==> ArePieces(ps, php, r)
  {
    hide Lex, IsPiece, Ends;
    if ps != [] {
      var p := ps[0];
      var s := Flatten(ps) + r;
      LexesAre(ps[1..], After(p, php), r);
      if p.text != "" {
        assert s == p.text + (Flatten(ps[1..]) + r);
        LexIs(s, php, p);
      } else {
        NoText(p, php);
      }
    }
  }

  lemma NoText(p: Piece, php: bool)
    requires p.text == ""
    ensures !IsPiece(p, php)
  {
  }

  /** A text scans into the pieces of the grammar that make it up, and into no others. */
  lemma ScansExactly(s: string, php: bool, ps: seq<Piece>)
    ensures Scan(s, php) == Ok(ps) <==> Flatten(ps) == s && ArePieces(ps, php, "")
  {
    hide Lex, Scan, Lexes, ArePieces, Flatten;
    LexesAre(ps, php, "");
    ScanLexes(s, php);
    if Lexes(ps, php, "") {
      LexesScan(ps, php, "");
      ScanNothing(ModeAfter(ps, php));
      assert Flatten(ps) + "" == Flatten(ps) && ps + [] == ps;
    }
  }

  // ----- what cannot be read -----

  /** No piece starts here, and why. */
  ghost predicate Unreadable(r: string, php: bool, e: PhpError) {
    match e
    case UnsupportedTag => !php && ['<', '?'] <= r && !("<?php" <= r)
    case UnterminatedComment => php && ['/', '*'] <= r && !Has(r[2..], '*', '/')
    case UnsupportedString => php && (['<', '<', '<'] <= r || ['`'] <= r)
    case UnterminatedString => php && (['\''] <= r || ['"'] <= r) && forall n :: 0 <= n <= |r| ==> !QuotedText(r[..n])
    case _ => false
  }

  lemma LexRefuses(r: string, php: bool, e: PhpError)
    requires r != ""
    ensures Lex(r, php) == Err(e) <==> Unreadable(r, php, e)
  {
    hide LexPhp, LexHtml, Unreadable;
    if php { PhpRefuses(r, e); } else { HtmlRefuses(r, e); }
  }

  lemma HtmlRefuses(r: string, e: PhpError)
    requires r != ""
    ensures LexHtml(r) == Err(e) <==> Unreadable(r, false, e)
  {
    hide Index, Has, QuotedText;
    assert "<?" == ['<', '?'] && "" + r == r;
    FirstPair("", '<', '?', r);
    HasNot("", '<', '?');
  }

  lemma PhpRefuses(r: string, e: PhpError)
    requires r != ""
    ensures LexPhp(r) == Err(e) <==> Unreadable(r, true, e)
  {
    hide LexPhp, Unreadable, LineLength;
    Starts(r);
    CommentStarts(r);
    Unread(r, e);
    if r[0] == '\'' || r[0] == '"' {
      NeverClosed(r);
      QuotedStarts(r);
    } else if !(['#'] <= r || ['/', '/'] <= r) {
      if ['/', '*'] <= r { NeverEnded(r); } else { OtherStarts(r); }
    }
  }

  /** In PHP code only strings, comments and two signs may be unreadable. */
  lemma Unread(r: string, e: PhpError)
    requires r != ""
    ensures r[0] == '\'' || r[0] == '"' ==> (Unreadable(r, true, e) <==> e == UnterminatedString && forall n :: 0 <= n <= |r| ==> !QuotedText(r[..n]))
    ensures r[0] == '#' || ['/', '/'] <= r ==> !Unreadable(r, true, e)
    ensures ['/', '*'] <= r ==> (Unreadable(r, true, e) <==> e == UnterminatedComment && !Has(r[2..], '*', '/'))
    ensures r[0] != '\'' && r[0] != '"' && !(['/', '*'] <= r) ==> (Unreadable(r, true, e) <==> e == UnsupportedString && (['<', '<', '<'] <= r || ['`'] <= r))
  {
    hide Has, QuotedText;
    assert (['\''] <= r ==> r[0] == '\'') && (['"'] <= r ==> r[0] == '"') && (['`'] <= r ==> r[0] == '`');
    assert (['<', '<', '<'] <= r ==> r[0] == '<') && (['/', '*'] <= r ==> r[0] == '/' && r[1] == '*') && (['/', '/'] <= r ==> r[0] == '/' && r[1] == '/');
    assert (r[0] == '\'' ==> ['\''] <= r) && (r[0] == '"' ==> ['"'] <= r);
  }

  lemma NeverEnded(r: string)
    requires ['/', '*'] <= r
    ensures LexBlockComment(r) == (if Has(r[2..], '*', '/') then LexBlockComment(r) else Err(UnterminatedComment))
    ensures Has(r[2..], '*', '/') ==> LexBlockComment(r).Ok?
  {
    hide Index, Has;
    NoPair(r[2..], '*', '/');
    assert "*/" == ['*', '/'] && "/*" == ['/', '*'];
  }

  lemma OtherStarts(r: string)
    requires r != "" && r[0] != '\'' && r[0] != '"' && !(['#'] <= r || ['/', '/'] <= r || ['/', '*'] <= r)
    ensures if ['<', '<', '<'] <= r || ['`'] <= r then LexPhp(r) == Err(UnsupportedString) else LexPhp(r).Ok?
  {
    hide IdentifierLength, SymbolLength;
    assert "//" == ['/', '/'] && "/*" == ['/', '*'] && "<<<" == ['<', '<', '<'];
    Starts(r);
  }

  lemma NeverClosed(r: string)
    requires r != "" && (r[0] == '\'' || r[0] == '"')
    ensures QuotedLength(r[1..], r[0]) == 0 <==> forall n :: 0 <= n <= |r| ==> !QuotedText(r[..n])
  {
    hide QuotedLength, QuotedText;
    forall n | 0 <= n <= |r|
      ensures QuotedText(r[..n]) <==> n > 1 && QuotedLength(r[1..], r[0]) == n - 1
    {
      ClosedAt(r, n);
    }
    var n := QuotedLength(r[1..], r[0]) + 1;
    assert n > 1 ==> QuotedText(r[..n]);
  }

  lemma ClosedAt(r: string, n: nat)
    requires n <= |r| && r != "" && (r[0] == '\'' || r[0] == '"')
    ensures QuotedText(r[..n]) <==> n > 1 && QuotedLength(r[1..], r[0]) == n - 1
  {
    hide QuotedLength, Body;
    if n > 1 {
      var s := r[1..];
      var t, u := s[..n - 1], s[n - 1..];
      assert s == t + u;
      ClosedIs(t, r[0], u);
      Inner(r, n);
    }
  }

  lemma Inner(r: string, n: nat)
    requires 2 <= n <= |r|
    ensures r[..n][1..n - 1] == r[1..][..n - 1][..n - 2] && r[..n][n - 1] == r[1..][..n - 1][n - 2]
  {
    assert r[..n][1..n - 1] == r[1..n - 1];
    assert r[1..][..n - 1][..n - 2] == r[1..n - 1];
  }

  /** s has the pieces ps, and behind them nothing can be read. */
  ghost predicate Stuck(s: string, php: bool, ps: seq<Piece>, e: PhpError) {
    var n := |Flatten(ps)|;
    Flatten(ps) <= s && n < |s| && ArePieces(ps, php, s[n..]) && Unreadable(s[n..], ModeAfter(ps, php), e)
  }

  lemma StuckHere(s: string, php: bool, e: PhpError)
    ensures Stuck(s, php, [], e) <==> s != "" && Lex(s, php) == Err(e)
  {
    hide Lex, Unreadable;
    assert s[0..] == s;
    if s != "" { LexRefuses(s, php, e); }
  }

  lemma StuckLater(s: string, php: bool, p: Piece, ps: seq<Piece>, e: PhpError)
    requires s != ""
    ensures Stuck(s, php, [p] + ps, e) <==> Lex(s, php) == Ok(p) && Stuck(s[|p.text|..], After(p, php), ps, e)
  {
    hide Lex, Unreadable, IsPiece, Ends, ArePieces, Flatten, ModeAfter;
    PiecesCons(p, ps, php, s[if |Flatten([p] + ps)| <= |s| then |Flatten([p] + ps)| else 0..]);
    LexIs(s, php, p);
    PrefixSplit(p.text, Flatten(ps), s);
    if p.text <= s && Flatten(ps) <= s[|p.text|..] {
      var rest, n := s[|p.text|..], |Flatten(ps)|;
      assert s[|p.text| + n..] == rest[n..] && Flatten(ps) + rest[n..] == rest;
    }
  }

  lemma PiecesCons(p: Piece, ps: seq<Piece>, php: bool, r: string)
    ensures Flatten([p] + ps) == p.text + Flatten(ps) && ModeAfter([p] + ps, php) == ModeAfter(ps, After(p, php))
    ensures ArePieces([p] + ps, php, r) <==> IsPiece(p, php) && Ends(p, Flatten(ps) + r) && ArePieces(ps, After(p, php), r)
  {
    hide IsPiece, Ends;
    assert ([p] + ps)[1..] == ps;
  }

  lemma PrefixSplit(a: string, b: string, s: string)
    ensures a + b <= s <==> a <= s && b <= s[|a|..]
  {
    if a + b <= s { assert s[..|a|] == (a + b)[..|a|] && s[|a|..][..|b|] == (a + b)[|a|..]; }
    if a <= s && b <= s[|a|..] { assert s == a + b + s[|a|..][|b|..]; }
  }

  /** A text is refused exactly where, behind pieces of the grammar, no piece starts. */
  lemma {:induction false} ScanRefuses(s: string, php: bool, e: PhpError)
    ensures Scan(s, php) == Err(e) <==> exists ps: seq<Piece> :: Stuck(s, php, ps, e)
    decreases |s|
  {
    hide Lex, Stuck;
    forall ps: seq<Piece> | Stuck(s, php, ps, e) && (s == "" || ps != [])
      ensures s != "" && Lex(s, php) == Ok(ps[0]) && Stuck(s[|ps[0].text|..], After(ps[0], php), ps[1..], e)
    {
      StuckBounds(s, php, ps, e);
      assert ps == [ps[0]] + ps[1..];
      StuckLater(s, php, ps[0], ps[1..], e);
    }
    StuckHere(s, php, e);
    if s != "" && Lex(s, php).Ok? {
      var p := Lex(s, php).value;
      ScanRefuses(s[|p.text|..], After(p, php), e);
      if ps :| Stuck(s[|p.text|..], After(p, php), ps, e) { StuckLater(s, php, p, ps, e); }
    }
  }

  lemma StuckBounds(s: string, php: bool, ps: seq<Piece>, e: PhpError)
    ensures Stuck(s, php, ps, e) ==> s != ""
  {
  }

  // ----- brackets -----

  predicate Pair(open: string, close: string) {
    (open == "(" && close == ")") || (open == "[" && close == "]") || (open == "{" && close == "}")
  }

  predicate Opens(t: string) { t == "(" || t == "[" || t == "{" }

  predicate Closes(t: string) { t == ")" || t == "]" || t == "}" }

  /** Balanced tokens start with a token that is no bracket, or with a bracket, balanced
      tokens and the bracket that closes it, and go on with balanced tokens. */
  lemma BalancedIs(ls: seq<Lexeme>)
    ensures Balanced([])
    ensures ls != [] && Closes(ls[0].Txt()) ==> !Balanced(ls)
    ensures ls != [] && !Opens(ls[0].Txt()) && !Closes(ls[0].Txt()) ==> (Balanced(ls) <==> Balanced(ls[1..]))
    ensures ls != [] && Opens(ls[0].Txt()) ==>
      (Balanced(ls) <==> exists n :: 0 < n < |ls| && Pair(ls[0].Txt(), ls[n].Txt()) && Balanced(ls[1..n]) && Balanced(ls[n + 1..]))
  {
    if ls != [] && Opens(ls[0].Txt()) {
      hide MatchLength, Balanced;
      CheckIsBalanced(ls);
      if Balanced(ls) {
        var n := MatchLength(ls, []).value;
        MatchIsGroup(ls);
        GroupParts(ls, n);
      }
      forall n | 0 < n < |ls| && Pair(ls[0].Txt(), ls[n].Txt()) && Balanced(ls[1..n]) && Balanced(ls[n + 1..])
        ensures Balanced(ls)
      {
        assert ls[..n + 1][1..n] == ls[1..n];
        GroupParts(ls, n + 1);
      }
    }
  }

  lemma GroupParts(ls: seq<Lexeme>, n: nat)
    requires 2 <= n <= |ls| && IsGroup(ls[..n])
    ensures Pair(ls[0].Txt(), ls[n - 1].Txt()) && Balanced(ls[1..n - 1]) && (Balanced(ls) <==> Balanced(ls[n..]))
  {
    hide Run;
    assert ls[..n][1..n - 1] == ls[1..n - 1] && ls == ls[..n] + ls[n..];
    GroupBalanced(ls[..n]);
    BalancedConcat(ls[..n], ls[n..]);
  }

  /** Brackets are refused as unterminated when more tokens would balance them, and as
      unbalanced when none would. */
  lemma BracketsRefused(ls: seq<Lexeme>)
    ensures CheckBrackets(ls) == if Balanced(ls) then None else if exists more :: Balanced(ls + more) then Some(UnterminatedExpression) else Some(Unbalanced)
  {
    hide CheckBrackets;
    CheckIsBalanced(ls);
    CheckFails(ls);
    if Run([], ls).Some? {
      RunOpens([], ls);
      var more := Closers(Run([], ls).value);
      RunConcat([], ls, more);
      ClosersClose(Run([], ls).value);
      assert Balanced(ls + more);
    } else {
      forall more
        ensures !Balanced(ls + more)
      {
        RunConcat([], ls, more);
      }
    }
  }

  lemma {:induction false} MatchFails(ls: seq<Lexeme>, stack: seq<string>)
    requires MatchLength(ls, stack).Err?
    ensures MatchLength(ls, stack).error == if Run(stack, ls).None? then Unbalanced else UnterminatedExpression
    decreases |ls|
  {
    if ls != [] && Feed(stack, ls[0].Txt()).Some? { MatchFails(ls[1..], Feed(stack, ls[0].Txt()).value); }
  }

  lemma {:induction false} CheckFails(ls: seq<Lexeme>)
    ensures CheckBrackets(ls).Some? ==> CheckBrackets(ls).value == if Run([], ls).None? then Unbalanced else UnterminatedExpression
    decreases |ls|
  {
    hide MatchLength;
    if ls == [] {
    } else if IsOpen(ls[0].Txt()) {
      if MatchLength(ls, []).Ok? {
        var n := MatchLength(ls, []).value;
        MatchIsGroup(ls);
        GroupBalanced(ls[..n]);
        RunConcat([], ls[..n], ls[n..]);
        assert ls == ls[..n] + ls[n..];
        CheckFails(ls[n..]);
      } else {
        MatchFails(ls, []);
      }
    } else {
      CheckFails(ls[1..]);
    }
  }

  predicate AllOpen(stack: seq<string>) { forall i :: 0 <= i < |stack| ==> IsOpen(stack[i]) }

  lemma {:induction false} RunOpens(stack: seq<string>, ls: seq<Lexeme>)
    requires AllOpen(stack) && Run(stack, ls).Some?
    ensures AllOpen(Run(stack, ls).value)
    decreases |ls|
  {
    if ls != [] { RunOpens(Feed(stack, ls[0].Txt()).value, ls[1..]); }
  }

  function Closer(open: string): Lexeme {
    Lexeme([], Piece(Symbol, if open == "(" then ")" else if open == "[" then "]" else "}"))
  }

  /** What closes the open brackets, the last one first. */
  function Closers(stack: seq<string>): seq<Lexeme> {
    if stack == [] then [] else [Closer(stack[|stack| - 1])] + Closers(stack[..|stack| - 1])
  }

  lemma {:induction false} ClosersClose(stack: seq<string>)
    requires AllOpen(stack)
    ensures Run(stack, Closers(stack)) == Some([])
  {
    if stack != [] {
      var n := |stack| - 1;
      ClosersClose(stack[..n]);
      assert IsOpen(stack[n]);
      assert Closers(stack)[1..] == Closers(stack[..n]);
    }
  }

  // ----- sources -----

  /** What is no token: HTML, blanks and comments. */
  predicate NoToken(p: Piece) { p.kind == Html || p.kind == Blank || p.kind == Comment }

  /** The tokens of a source and what stands between them. */
  predicate IsSource(src: string, d: Doc) {
    && Flatten(AllPieces(d)) == src && ArePieces(AllPieces(d), false, "")
    && (forall i :: 0 <= i < |d.lexemes| ==> !NoToken(d.lexemes[i].token) && forall p :: p in d.lexemes[i].gap ==> NoToken(p))
    && (forall p :: p in d.tail ==> NoToken(p))
  }

  /** A source is read if and only if it has a token and its brackets are balanced, and
      then as its tokens and what stands between them. */
  lemma ParsesSource(src: string, d: Doc)
    ensures Parse(src) == Ok(d) <==> IsSource(src, d) && d.lexemes != [] && Balanced(d.lexemes)
  {
    hide Scan, ArePieces, Balanced, CheckBrackets, Flatten, Pieces;
    ScansExactly(src, false, AllPieces(d));
    CheckIsBalanced(d.lexemes);
    if Parse(src) == Ok(d) {
      var ps := Scan(src, false).value;
      GroupPieces([], ps);
      assert [] + ps == ps;
      GroupWellFormed([], ps);
      EachFormed(d);
    }
    if IsSource(src, d) {
      EachFormed(d);
      PiecesGroup(d.lexemes, d.tail);
    }
  }

  lemma EachFormed(d: Doc)
    ensures WellFormed(d.lexemes) && Trivia(d.tail) <==>
      && (forall i :: 0 <= i < |d.lexemes| ==> !NoToken(d.lexemes[i].token) && forall p :: p in d.lexemes[i].gap ==> NoToken(p))
      && (forall p :: p in d.tail ==> NoToken(p))
  {
    if WellFormed(d.lexemes) { assert forall i :: 0 <= i < |d.lexemes| ==> d.lexemes[i] in d.lexemes; }
  }

  /** A source without a token is refused as such. */
  lemma ParsesNothing(src: string)
    ensures Parse(src) == Err(NoCode) <==> exists d :: IsSource(src, d) && d.lexemes == []
  {
    hide Scan, ArePieces, CheckBrackets, Flatten, Pieces, IsSource;
    if Scan(src, false).Ok? {
      var ps := Scan(src, false).value;
      SourceOf(src, ps);
      BracketsRefused(Group([], ps).lexemes);
    }
    ScanRefuses(src, false, NoCode);
    forall d | IsSource(src, d)
      ensures Scan(src, false).Ok? && Group([], Scan(src, false).value) == d
    {
      OfSource(src, d);
    }
    StuckReason(src);
  }

  lemma SourceOf(src: string, ps: seq<Piece>)
    requires Scan(src, false) == Ok(ps)
    ensures IsSource(src, Group([], ps))
  {
    hide Scan, ArePieces, Flatten, Pieces;
    var d := Group([], ps);
    ScansExactly(src, false, ps);
    GroupPieces([], ps);
    assert [] + ps == ps;
    GroupWellFormed([], ps);
    EachFormed(d);
  }

  lemma OfSource(src: string, d: Doc)
    requires IsSource(src, d)
    ensures Scan(src, false).Ok? && Group([], Scan(src, false).value) == d
  {
    hide Scan, ArePieces, Flatten, Pieces;
    ScansExactly(src, false, AllPieces(d));
    EachFormed(d);
    PiecesGroup(d.lexemes, d.tail);
  }

  lemma StuckReason(src: string)
    ensures forall ps: seq<Piece> :: !Stuck(src, false, ps, NoCode)
  {
  }
}
