/** The PHP scanner of plugins/framework_php.go, one lexical piece at a time.

    A source text is cut into pieces: stretches of HTML, single blanks,
    comments and tokens.  The pieces keep every character, so the source is
    their concatenation.  The main result is `Splice`: replacing a run of pieces
    by text that lexes on its own leaves the scan of everything else alone. */
module PhpLexer {
  import opened Text

  datatype PhpError =
    | UnsupportedTag | UnterminatedComment | UnsupportedString | UnterminatedString
    | NoCode | Unbalanced | UnterminatedExpression | UnbalancedExpression | EmptyExpression
    | KeyNotString | InterpolatedKey | KeyEscape | NotLiteralArray | ComputedArray
    | LiteralKeysRequired | DuplicateKey | MultipleReturns | NoReturnedArray | ComputedReturn
    | EmptyPath | OverlappingEdits | DefineArguments | DuplicateConstant
    | DuplicateMarker | IncompleteMarkers | NonFiniteNumber

  datatype Kind = Html | Blank | Comment | Open | Close | Quoted | Identifier | Symbol

  datatype Piece = Piece(kind: Kind, text: string)

  predicate IsToken(p: Piece) {
    p.kind != Html && p.kind != Blank && p.kind != Comment
  }

  /** The mode after a piece: the two tags switch it. */
  function After(p: Piece, php: bool): bool {
    if p.kind == Open then true else if p.kind == Close then false else php
  }

  function Flatten(ps: seq<Piece>): string {
    if ps == [] then "" else ps[0].text + Flatten(ps[1..])
  }

  function ModeAfter(ps: seq<Piece>, php: bool): bool {
    if ps == [] then php else ModeAfter(ps[1..], After(ps[0], php))
  }

  // ----- one piece -----

  predicate IsBlank(c: char) { c == ' ' || c == '\t' || c == '\r' || c == '\n' }

  predicate IsIdentifierStart(c: char) {
    c == '_' || c as int >= 128 || 'a' <= c <= 'z' || 'A' <= c <= 'Z'
  }

  predicate IsIdentifierPart(c: char) { IsIdentifierStart(c) || '0' <= c <= '9' }

  /** Length of a line comment at the head of s: it stops before a line break or `?>`. */
  function LineLength(s: string): (n: nat)
    ensures n <= |s|
  {
    if s == "" || s[0] == '\n' || s[0] == '\r' || "?>" <= s then 0 else 1 + LineLength(s[1..])
  }

  /** Length up to and including the closing quote, where s starts after the
      opening one; 0 when the string is not closed. */
  function QuotedLength(s: string, quote: char): (n: nat)
    ensures n <= |s|
  {
    if s == "" then 0
    else if s[0] == '\\' then
      if |s| < 2 then 0 else
      var n := QuotedLength(s[2..], quote);
      if n == 0 then 0 else n + 2
    else if s[0] == quote then 1
    else
      var n := QuotedLength(s[1..], quote);
      if n == 0 then 0 else n + 1
  }

  function IdentifierLength(s: string): (n: nat)
    ensures n <= |s|
  {
    if s == "" || !IsIdentifierPart(s[0]) then 0 else 1 + IdentifierLength(s[1..])
  }

  /** Length of a symbol at the head of s: the four operators, or one character. */
  function SymbolLength(s: string): (n: nat)
    requires s != ""
    ensures 0 < n <= |s|
  {
    if "=>" <= s || "->" <= s || "::" <= s then 2 else if "..." <= s then 3 else 1
  }

  function LexHtml(s: string): (r: Result<Piece, PhpError>)
    requires s != ""
    ensures r.Ok? ==> r.value.text != "" && r.value.text <= s
  {
    var n := Index(s, "<?");
    if n < 0 then Ok(Piece(Html, s))
    else if n > 0 then Ok(Piece(Html, s[..n]))
    else if "<?php" <= s then Ok(Piece(Open, s[..5]))
    else Err(UnsupportedTag)
  }

  function LexBlockComment(s: string): (r: Result<Piece, PhpError>)
    requires "/*" <= s
    ensures r.Ok? ==> r.value.text != "" && r.value.text <= s
  {
    var n := Index(s[2..], "*/");
    if n < 0 then Err(UnterminatedComment) else Ok(Piece(Comment, s[..n + 4]))
  }

  function LexPhp(s: string): (r: Result<Piece, PhpError>)
    requires s != ""
    ensures r.Ok? ==> r.value.text != "" && r.value.text <= s
  {
    var c := s[0];
    if IsBlank(c) then Ok(Piece(Blank, s[..1]))
    else if "?>" <= s then Ok(Piece(Close, s[..2]))
    else if c == '#' || "//" <= s then Ok(Piece(Comment, s[..LineLength(s)]))
    else if "/*" <= s then LexBlockComment(s)
    else if "<<<" <= s || c == '`' then Err(UnsupportedString)
    else if c == '\'' || c == '"' then
      var n := QuotedLength(s[1..], c);
      if n == 0 then Err(UnterminatedString) else Ok(Piece(Quoted, s[..n + 1]))
    else if IsIdentifierStart(c) then Ok(Piece(Identifier, s[..1 + IdentifierLength(s[1..])]))
    else Ok(Piece(Symbol, s[..SymbolLength(s)]))
  }

  function Lex(s: string, php: bool): (r: Result<Piece, PhpError>)
    requires s != ""
    ensures r.Ok? ==> r.value.text != "" && r.value.text <= s
  {
    if php then LexPhp(s) else LexHtml(s)
  }

  /** The whole scan of s. */
  function Scan(s: string, php: bool): (r: Result<seq<Piece>, PhpError>)
    decreases |s|
  {
    if s == "" then Ok([])
    else
      match Lex(s, php)
      case Err(e) => Err(e)
      case Ok(p) =>
        match Scan(s[|p.text|..], After(p, php))
        case Err(e) => Err(e)
        case Ok(ps) => Ok([p] + ps)
  }

  /** ps are the pieces that scanning starts with when r follows them. */
  ghost predicate Lexes(ps: seq<Piece>, php: bool, r: string) {
    ps == [] ||
    (ps[0].text != "" && Lex(Flatten(ps) + r, php) == Ok(ps[0]) && Lexes(ps[1..], After(ps[0], php), r))
  }

  // ----- look-ahead -----

  predicate IsLineComment(p: Piece) {
    p.kind == Comment && !("/*" <= p.text)
  }

  /** What may follow p without changing how p itself lexes. */
  predicate Look(p: Piece, r: string) {
    match p.kind
    case Html => r == "" || "<?" <= r
    case Comment => IsLineComment(p) ==> r == "" || r[0] == '\n' || r[0] == '\r' || "?>" <= r
    case Identifier => r == "" || !IsIdentifierPart(r[0])
    case Symbol =>
      |p.text| == 1 ==>
        && (p.text == "=" || p.text == "-" || p.text == "?" ==> !(">" <= r))
        && (p.text == ":" ==> !(":" <= r))
        && (p.text == "." ==> !(".." <= r))
        && (p.text == "/" ==> !("/" <= r) && !("*" <= r))
        && (p.text == "<" ==> !("<<" <= r))
    case _ => true
  }

  lemma {:induction false} LineLengthLook(t: string, r: string)
    requires LineLength(t + r) == |t|
    ensures r == "" || r[0] == '\n' || r[0] == '\r' || "?>" <= r
    ensures forall i :: 0 <= i < |t| ==> t[i] != '\n' && t[i] != '\r'
  {
    if t == "" {
      assert t + r == r;
    } else {
      assert (t + r)[1..] == t[1..] + r;
      LineLengthLook(t[1..], r);
    }
  }

  lemma {:induction false} LineLengthMove(t: string, r: string, r': string)
    requires LineLength(t + r) == |t|
    requires r' == "" || r'[0] == '\n' || r'[0] == '\r' || "?>" <= r'
    ensures LineLength(t + r') == |t|
  {
    if t == "" {
      assert t + r' == r';
    } else {
      assert (t + r)[1..] == t[1..] + r && (t + r')[1..] == t[1..] + r';
      LineLengthMove(t[1..], r, r');
    }
  }

  lemma {:induction false} QuotedLengthMove(t: string, q: char, r: string, r': string)
    requires t != "" && QuotedLength(t + r, q) == |t|
    ensures QuotedLength(t + r', q) == |t|
  {
    if t[0] == '\\' {
      assert |t| > 2;
      assert (t + r)[2..] == t[2..] + r && (t + r')[2..] == t[2..] + r';
      QuotedLengthMove(t[2..], q, r, r');
    } else if t[0] != q {
      assert |t| > 1;
      assert (t + r)[1..] == t[1..] + r && (t + r')[1..] == t[1..] + r';
      QuotedLengthMove(t[1..], q, r, r');
    }
  }

  lemma {:induction false} IdentifierLengthMove(t: string, r: string, r': string)
    requires IdentifierLength(t + r) == |t|
    requires r' == "" || !IsIdentifierPart(r'[0])
    ensures IdentifierLength(t + r') == |t|
  {
    if t == "" {
      assert t + r' == r';
    } else {
      assert (t + r)[1..] == t[1..] + r && (t + r')[1..] == t[1..] + r';
      IdentifierLengthMove(t[1..], r, r');
    }
  }

  lemma {:induction false} IdentifierLengthLook(t: string, r: string)
    requires IdentifierLength(t + r) == |t|
    ensures r == "" || !IsIdentifierPart(r[0])
  {
    if t == "" {
      assert t + r == r;
    } else {
      assert (t + r)[1..] == t[1..] + r;
      IdentifierLengthLook(t[1..], r);
    }
  }

  predicate At(s: string, sub: string, i: nat)
    requires |sub| == 2
  {
    i + 2 <= |s| && s[i] == sub[0] && s[i + 1] == sub[1]
  }

  lemma {:induction false} IndexFirst(s: string, sub: string)
    requires |sub| == 2
    ensures var n := Index(s, sub);
      && (n >= 0 ==> At(s, sub, n))
      && forall i: nat :: (n < 0 || i < n) ==> !At(s, sub, i)
  {
    if s != "" && !(sub <= s) {
      IndexFirst(s[1..], sub);
      forall i: nat | At(s, sub, i) && i > 0
        ensures At(s[1..], sub, i - 1)
      {
      }
    }
  }

  lemma {:induction false} IndexIs(s: string, sub: string, n: nat)
    requires |sub| == 2 && At(s, sub, n)
    requires forall i: nat :: i < n ==> !At(s, sub, i)
    ensures Index(s, sub) == n
  {
    IndexFirst(s, sub);
  }

  lemma LexHtmlLook(p: Piece, r: string)
    requires p.text != "" && LexHtml(p.text + r) == Ok(p)
    ensures Look(p, r)
  {
  }

  lemma LexHtmlMove(p: Piece, r: string, r': string)
    requires p.text != "" && LexHtml(p.text + r) == Ok(p) && Look(p, r')
    ensures LexHtml(p.text + r') == Ok(p)
  {
    var t := p.text;
    var s, s' := t + r, t + r';
    assert s'[..|t|] == t == s[..|t|];
    IndexFirst(s, "<?");
    if p.kind == Open {
      assert "<?" <= s';
    } else {
      assert forall i: nat :: i + 1 < |t| ==> (At(s, "<?", i) <==> At(s', "<?", i));
      if r' == "" {
        assert s' == t;
        IndexFirst(s', "<?");
      } else {
        assert At(s', "<?", |t|);
        assert s'[|t|] == '<';
        IndexIs(s', "<?", |t|);
      }
    }
  }

  lemma LexPhpLook(p: Piece, r: string)
    requires p.text != "" && LexPhp(p.text + r) == Ok(p)
    ensures Look(p, r)
  {
    var t := p.text;
    var s := t + r;
    var c := s[0];
    if p.kind == Comment && IsLineComment(p) {
      LineLengthLook(t, r);
    } else if p.kind == Identifier {
      assert s[1..] == t[1..] + r;
      IdentifierLengthLook(t[1..], r);
    } else if p.kind == Symbol && |t| == 1 {
      assert r == s[1..];
    }
  }

  lemma LexPhpMove(p: Piece, r: string, r': string)
    requires p.text != "" && LexPhp(p.text + r) == Ok(p) && Look(p, r')
    ensures LexPhp(p.text + r') == Ok(p)
  {
    match p.kind
    case Comment =>
      if IsLineComment(p) { LineCommentMove(p, r, r'); } else { BlockCommentMove(p, r, r'); }
    case Symbol => SymbolMove(p, r, r');
    case Quoted => QuotedMove(p, r, r');
    case Identifier => IdentifierMove(p, r, r');
    case _ => FixedMove(p, r, r');
  }

  lemma FixedMove(p: Piece, r: string, r': string)
    requires p.text != "" && LexPhp(p.text + r) == Ok(p) && (p.kind == Blank || p.kind == Close || p.kind == Open || p.kind == Html)
    ensures LexPhp(p.text + r') == Ok(p)
  {
    var s, s' := p.text + r, p.text + r';
    assert s'[0] == s[0] && s'[..|p.text|] == p.text == s[..|p.text|];
    if p.kind == Close { assert s'[1] == s[1]; }
  }

  lemma QuotedMove(p: Piece, r: string, r': string)
    requires p.text != "" && p.kind == Quoted && LexPhp(p.text + r) == Ok(p)
    ensures LexPhp(p.text + r') == Ok(p)
  {
    var t := p.text;
    var s, s' := t + r, t + r';
    assert s'[0] == s[0] && s'[..|t|] == t == s[..|t|];
    assert s[1..] == t[1..] + r && s'[1..] == t[1..] + r';
    QuotedLengthMove(t[1..], s[0], r, r');
  }

  lemma IdentifierMove(p: Piece, r: string, r': string)
    requires p.text != "" && p.kind == Identifier && LexPhp(p.text + r) == Ok(p) && Look(p, r')
    ensures LexPhp(p.text + r') == Ok(p)
  {
    var t := p.text;
    var s, s' := t + r, t + r';
    assert s'[0] == s[0] && s'[..|t|] == t == s[..|t|];
    assert s[1..] == t[1..] + r && s'[1..] == t[1..] + r';
    IdentifierLengthMove(t[1..], r, r');
  }

  lemma LineCommentMove(p: Piece, r: string, r': string)
    requires p.text != "" && IsLineComment(p) && LexPhp(p.text + r) == Ok(p) && Look(p, r')
    ensures LexPhp(p.text + r') == Ok(p)
  {
    var t := p.text;
    var s, s' := t + r, t + r';
    assert s'[0] == s[0] == t[0] && s'[..|t|] == t == s[..|t|];
    if s[0] != '#' && "//" <= s {
      CommentHead(s);
      assert s'[1] == t[1] == s[1];
    }
    LineLengthMove(t, r, r');
  }

  lemma IndexMove(t: string, sub: string, r: string, r': string)
    requires |sub| == 2 <= |t| && Index(t + r, sub) == |t| - 2
    ensures Index(t + r', sub) == |t| - 2
  {
    IndexFirst(t + r, sub);
    assert forall i: nat :: i + 2 <= |t| ==> (At(t + r, sub, i) <==> At(t + r', sub, i));
    IndexIs(t + r', sub, |t| - 2);
  }

  lemma BlockCommentMove(p: Piece, r: string, r': string)
    requires p.text != "" && p.kind == Comment && !IsLineComment(p) && LexPhp(p.text + r) == Ok(p)
    ensures LexPhp(p.text + r') == Ok(p)
  {
    var t := p.text;
    assert LexBlockComment(t + r) == Ok(p) by { BlockCommentHead(t, r); }
    assert (t + r)[2..] == t[2..] + r && (t + r')[2..] == t[2..] + r';
    IndexMove(t[2..], "*/", r, r');
    BlockCommentHead(t, r');
    assert (t + r')[..|t|] == t;
  }

  lemma BlockCommentHead(t: string, r: string)
    requires "/*" <= t
    ensures "/*" <= t + r && LexPhp(t + r) == LexBlockComment(t + r)
  {
    var s := t + r;
    assert s[0] == '/' && s[1] == '*';
  }

  lemma CommentHead(s: string)
    requires "//" <= s
    ensures LineLength(s) >= 2
  {
  }

  /** What the scan of a symbol has ruled out. */
  predicate SymbolStarts(s: string)
    requires s != ""
  {
    && !IsBlank(s[0]) && !("?>" <= s) && s[0] != '#' && !("//" <= s) && !("/*" <= s) && !("<<<" <= s) && s[0] != '`'
    && s[0] != '\'' && s[0] != '"' && !IsIdentifierStart(s[0])
  }

  lemma SymbolLexes(s: string)
    requires s != ""
    ensures SymbolStarts(s) ==> LexPhp(s) == Ok(Piece(Symbol, s[..SymbolLength(s)]))
    ensures LexPhp(s).Ok? && LexPhp(s).value.kind == Symbol ==> SymbolStarts(s)
  {
  }

  lemma OnePrefix(t: string, r: string, c: char, d: char)
    requires |t| == 1
    ensures [c, d] <= t + r <==> t == [c] && [d] <= r
  {
    if [c, d] <= t + r { assert (t + r)[0] == t[0] && (t + r)[1] == r[0]; }
    if t == [c] && [d] <= r { assert (t + r)[1] == r[0]; }
  }

  lemma TwoPrefix(t: string, r: string, c: char, d: char, e: char)
    requires |t| == 1
    ensures [c, d, e] <= t + r <==> t == [c] && [d, e] <= r
  {
    var s := t + r;
    if [c, d, e] <= s { assert s[0] == t[0] && s[1] == r[0] && s[2] == r[1]; }
    if t == [c] && [d, e] <= r { assert s[1] == r[0] && s[2] == r[1]; }
  }

  lemma OneSymbol(t: string, r: string)
    requires |t| == 1
    ensures SymbolStarts(t + r) <==>
      && !IsBlank(t[0]) && t[0] != '#' && t[0] != '`' && t[0] != '\'' && t[0] != '"' && !IsIdentifierStart(t[0])
      && !(t == ['?'] && ['>'] <= r) && !(t == ['/'] && (['/'] <= r || ['*'] <= r)) && !(t == ['<'] && ['<', '<'] <= r)
    ensures SymbolLength(t + r) == 1 <==> !((t == ['='] || t == ['-']) && ['>'] <= r) && !(t == [':'] && [':'] <= r) && !(t == ['.'] && ['.', '.'] <= r)
  {
    hide IsBlank, IsIdentifierStart;
    assert (t + r)[0] == t[0];
    OnePrefix(t, r, '?', '>');
    OnePrefix(t, r, '/', '/');
    OnePrefix(t, r, '/', '*');
    TwoPrefix(t, r, '<', '<', '<');
    OnePrefix(t, r, '=', '>');
    OnePrefix(t, r, '-', '>');
    OnePrefix(t, r, ':', ':');
    TwoPrefix(t, r, '.', '.', '.');
  }

  /** The operators of two and three characters. */
  lemma LongSymbol(t: string, r: string)
    requires t == "=>" || t == "->" || t == "::" || t == "..."
    ensures SymbolStarts(t + r) && SymbolLength(t + r) == |t|
  {
  }

  lemma SymbolText(s: string)
    requires s != "" && SymbolStarts(s) && SymbolLength(s) > 1
    ensures var t := s[..SymbolLength(s)]; t == "=>" || t == "->" || t == "::" || t == "..."
  {
  }

  lemma SymbolMove(p: Piece, r: string, r': string)
    requires p.text != "" && p.kind == Symbol && LexPhp(p.text + r) == Ok(p) && Look(p, r')
    ensures LexPhp(p.text + r') == Ok(p)
  {
    hide LexPhp, SymbolStarts, SymbolLength;
    var t := p.text;
    var s, s' := t + r, t + r';
    SymbolLexes(s);
    SymbolLexes(s');
    assert s[..|t|] == t && s'[..|t|] == t;
    assert |s[..SymbolLength(s)]| == SymbolLength(s);
    if |t| == 1 {
      OneSymbol(t, r);
      OneSymbol(t, r');
    } else {
      SymbolText(s);
      LongSymbol(t, r');
    }
  }

  lemma LexLook(p: Piece, php: bool, r: string)
    requires p.text != "" && Lex(p.text + r, php) == Ok(p)
    ensures Look(p, r)
  {
    if php { LexPhpLook(p, r); } else { LexHtmlLook(p, r); }
  }

  lemma LexMove(p: Piece, php: bool, r: string, r': string)
    requires p.text != "" && Lex(p.text + r, php) == Ok(p) && Look(p, r')
    ensures Lex(p.text + r', php) == Ok(p)
  {
    if php { LexPhpMove(p, r, r'); } else { LexHtmlMove(p, r, r'); }
  }

  // ----- runs of pieces -----

  lemma {:induction false} FlattenConcat(a: seq<Piece>, b: seq<Piece>)
    ensures Flatten(a + b) == Flatten(a) + Flatten(b)
  {
    if a == [] {
      assert a + b == b;
    } else {
      assert (a + b)[1..] == a[1..] + b;
      FlattenConcat(a[1..], b);
    }
  }

  lemma {:induction false} ModeConcat(a: seq<Piece>, b: seq<Piece>, php: bool)
    ensures ModeAfter(a + b, php) == ModeAfter(b, ModeAfter(a, php))
  {
    if a == [] {
      assert a + b == b;
    } else {
      assert (a + b)[1..] == a[1..] + b;
      ModeConcat(a[1..], b, After(a[0], php));
    }
  }

  lemma {:induction false} LexesConcat(a: seq<Piece>, b: seq<Piece>, php: bool, r: string)
    ensures Lexes(a + b, php, r) <==> Lexes(a, php, Flatten(b) + r) && Lexes(b, ModeAfter(a, php), r)
  {
    if a == [] {
      assert a + b == b;
    } else {
      assert (a + b)[1..] == a[1..] + b;
      FlattenConcat(a, b);
      assert Flatten(a + b) + r == Flatten(a) + (Flatten(b) + r);
      LexesConcat(a[1..], b, After(a[0], php), r);
    }
  }

  /** Scanning a text succeeds with pieces that flatten to it and lex in order;
      and pieces that lex in order are what scanning their text returns. */
  lemma {:induction false} ScanLexes(s: string, php: bool)
    ensures Scan(s, php).Ok? ==> Flatten(Scan(s, php).value) == s && Lexes(Scan(s, php).value, php, "")
    decreases |s|
  {
    if s != "" && Scan(s, php).Ok? {
      var p := Lex(s, php).value;
      ScanLexes(s[|p.text|..], After(p, php));
      assert s == p.text + s[|p.text|..];
      assert s + "" == s;
    }
  }

  lemma ScanStep(s: string, php: bool, p: Piece)
    requires s != "" && Lex(s, php) == Ok(p)
    ensures var rest := Scan(s[|p.text|..], After(p, php));
      Scan(s, php) == match rest case Err(e) => Err(e) case Ok(ps) => Ok([p] + ps)
  {
  }

  lemma ScanNothing(php: bool)
    ensures Scan("", php) == Ok([])
  {
  }

  lemma ScanOpen(rest: string, ps: seq<Piece>)
    requires Scan(rest, true) == Ok(ps)
    ensures Scan("<?php" + rest, false) == Ok([Piece(Open, "<?php")] + ps)
  {
  }

  lemma ConsAppend<T>(a: seq<T>, b: seq<T>)
    requires a != []
    ensures [a[0]] + (a[1..] + b) == a + b
  {
  }

  lemma {:induction false} LexesScan(ps: seq<Piece>, php: bool, r: string)
    requires Lexes(ps, php, r)
    ensures Scan(Flatten(ps) + r, php).Ok? <==> Scan(r, ModeAfter(ps, php)).Ok?
    ensures Scan(r, ModeAfter(ps, php)).Ok? ==>
      Scan(Flatten(ps) + r, php) == Ok(ps + Scan(r, ModeAfter(ps, php)).value)
  {
    hide Lex, Scan;
    if ps == [] {
      assert Flatten(ps) + r == r;
      if Scan(r, php).Ok? { assert ps + Scan(r, php).value == Scan(r, php).value; }
    } else {
      var s := Flatten(ps) + r;
      assert s[|ps[0].text|..] == Flatten(ps[1..]) + r;
      LexesScan(ps[1..], After(ps[0], php), r);
      ScanStep(s, php, ps[0]);
      if Scan(r, ModeAfter(ps, php)).Ok? { ConsAppend(ps, Scan(r, ModeAfter(ps, php)).value); }
    }
  }

  /** r does not complete `...` or `<<<` behind p and q. */
  predicate Past(p: Piece, q: Piece, r: string) {
    p.kind == Symbol && p.text == q.text ==> !(q.text == "." && "." <= r) && !(q.text == "<" && "<" <= r)
  }

  /** r may follow the pieces without changing how any of them lexes. */
  predicate Follows(ps: seq<Piece>, r: string) {
    ps != [] ==> Look(ps[|ps| - 1], r) && (|ps| > 1 ==> Past(ps[|ps| - 2], ps[|ps| - 1], r))
  }

  /** r may follow the piece p, whatever stands before p. */
  predicate Safe(p: Piece, r: string) {
    && Look(p, r)
    && (p.text == "." ==> !("." <= r))
    && (p.text == "<" ==> !("<" <= r))
  }

  lemma SafeFollows(ps: seq<Piece>, r: string)
    requires ps != [] ==> Safe(ps[|ps| - 1], r)
    ensures Follows(ps, r)
  {
    hide Look;
  }

  lemma TwoCharacters(t: string, r: string, c: char)
    requires |t| == 1 && [c, c] <= t + r
    ensures t == [c] && [c] <= r
  {
    assert (t + r)[0] == t[0] && (t + r)[1] == r[0];
  }

  lemma SecondCharacter(rest: seq<Piece>, php: bool, r: string, r': string, c: char)
    requires rest != [] && Lexes(rest, php, r)
    requires |rest| == 1 && rest[0].text == [c] ==> !([c] <= r')
    requires [c, c] <= Flatten(rest) + r'
    ensures [c, c] <= Flatten(rest) + r
  {
    hide Lex;
    var q := rest[0];
    assert Flatten(rest) == q.text + Flatten(rest[1..]);
    if |rest| == 1 {
      assert Flatten(rest) == q.text;
      if |q.text| == 1 { TwoCharacters(q.text, r', c); }
    } else {
      assert Flatten(rest[1..]) == rest[1].text + Flatten(rest[2..]);
      assert rest[1].text != "";
    }
    assert |Flatten(rest)| >= 2;
  }

  /** Look sees one character, or two after `.`, `<` and a line comment. */
  lemma SameHeadLook(p: Piece, x: string, x': string)
    requires x != "" && x' != "" && x[0] == x'[0] && Look(p, x) && p.kind != Html
    requires IsLineComment(p) && "?>" <= x ==> "?>" <= x'
    requires p.kind == Symbol && p.text == "." && ".." <= x' ==> ".." <= x
    requires p.kind == Symbol && p.text == "<" && "<<" <= x' ==> "<<" <= x
    ensures Look(p, x')
  {
  }

  /** A piece that is two characters long, or longer, shows them. */
  lemma PrefixShown(q: string, tag: string, x: string, x': string)
    requires q <= x && q <= x' && tag <= x && |tag| <= |q|
    ensures tag <= x'
  {
  }

  lemma TagLexes(s: string)
    requires "<?" <= s && Lex(s, false).Ok?
    ensures |Lex(s, false).value.text| == 5
  {
  }

  lemma CloseLexes(s: string)
    requires "?>" <= s && Lex(s, true).Ok?
    ensures |Lex(s, true).value.text| == 2
  {
  }

  lemma LookAcross(p: Piece, php: bool, rest: seq<Piece>, r: string, r': string)
    requires p.text != "" && Lex(p.text + (Flatten(rest) + r), php) == Ok(p)
    requires rest != [] && Lexes(rest, After(p, php), r)
    requires Look(p, Flatten(rest) + r)
    requires |rest| == 1 ==> Past(p, rest[0], r')
    ensures Look(p, Flatten(rest) + r')
  {
    hide LexPhp, LexHtml, Look;
    var q := rest[0];
    var x, x' := Flatten(rest) + r, Flatten(rest) + r';
    assert Flatten(rest) == q.text + Flatten(rest[1..]);
    assert q.text <= x && q.text <= x' && q.text != "";
    assert x[0] == q.text[0] == x'[0];
    LexedIn(p, php, p.text + x);
    if p.kind == Html {
      LookHtml(p, x);
      TagLexes(x);
      PrefixShown(q.text, "<?", x, x');
      LookHtml(p, x');
    } else {
      if IsLineComment(p) && "?>" <= x {
        CloseLexes(x);
        PrefixShown(q.text, "?>", x, x');
      }
      if p.kind == Symbol && p.text == "." && ".." <= x' {
        SecondCharacter(rest, After(p, php), r, r', '.');
        assert ['.', '.'] <= x;
      }
      if p.kind == Symbol && p.text == "<" && "<<" <= x' {
        SecondCharacter(rest, After(p, php), r, r', '<');
        assert ['<', '<'] <= x;
      }
      SameHeadLook(p, x, x');
    }
  }

  lemma LookHtml(p: Piece, r: string)
    requires p.kind == Html
    ensures Look(p, r) <==> r == "" || "<?" <= r
  {
  }

  /** HTML is lexed outside PHP code, comments inside. */
  lemma LexedIn(p: Piece, php: bool, s: string)
    requires s != "" && Lex(s, php) == Ok(p)
    ensures p.kind == Html ==> !php
    ensures p.kind == Comment ==> php
  {
  }

  /** What follows a run of pieces may be changed to anything that may follow them. */
  lemma {:induction false} LexesMove(ps: seq<Piece>, php: bool, r: string, r': string)
    requires Lexes(ps, php, r) && Follows(ps, r')
    ensures Lexes(ps, php, r')
  {
    hide Lex, Look, Past;
    if ps != [] {
      var p, rest := ps[0], ps[1..];
      var m := After(p, php);
      assert Flatten(ps) + r == p.text + (Flatten(rest) + r);
      assert Flatten(ps) + r' == p.text + (Flatten(rest) + r');
      if rest == [] {
        assert Flatten(rest) + r == r && Flatten(rest) + r' == r';
      } else {
        LexesMove(rest, m, r, r');
        LexLook(p, php, Flatten(rest) + r);
        LookAcross(p, php, rest, r, r');
      }
      LexMove(p, php, Flatten(rest) + r, Flatten(rest) + r');
    }
  }

  /** And to nothing else. */
  lemma {:induction false} LexesFollows(ps: seq<Piece>, php: bool, r: string)
    requires Lexes(ps, php, r)
    ensures Follows(ps, r)
  {
    hide Lex, Look, Past;
    if ps != [] {
      var p, rest := ps[0], ps[1..];
      assert Flatten(ps) + r == p.text + (Flatten(rest) + r);
      LexLook(p, php, Flatten(rest) + r);
      if rest == [] {
        assert Flatten(rest) + r == r;
      } else {
        LexesFollows(rest, After(p, php), r);
        if |rest| == 1 {
          assert Flatten(rest) == rest[0].text;
          LookPast(p, rest[0], r);
        }
      }
    }
  }

  lemma LookPast(p: Piece, q: Piece, r: string)
    requires Look(p, q.text + r)
    ensures Past(p, q, r)
  {
  }

  /** Piece i is the first that lexes otherwise when r' takes the place of r. */
  ghost predicate Apart(ps: seq<Piece>, php: bool, r: string, r': string, i: nat) {
    && i < |ps| && ps[i].text != "" && Lexes(ps[..i], php, Flatten(ps[i..]) + r')
    && Lex(Flatten(ps[i..]) + r, ModeAfter(ps[..i], php)) == Ok(ps[i])
    && Lex(Flatten(ps[i..]) + r', ModeAfter(ps[..i], php)) != Ok(ps[i])
  }

  lemma {:induction false} FirstApart(ps: seq<Piece>, php: bool, r: string, r': string) returns (i: nat)
    requires Lexes(ps, php, r) && !Lexes(ps, php, r')
    ensures Apart(ps, php, r, r', i)
  {
    hide Lex, Apart;
    if Lex(Flatten(ps) + r', php) != Ok(ps[0]) {
      i := 0;
      ApartHere(ps, php, r, r');
    } else {
      i := FirstApart(ps[1..], After(ps[0], php), r, r');
      ApartNext(ps, php, r, r', i);
      i := i + 1;
    }
  }

  lemma ApartHere(ps: seq<Piece>, php: bool, r: string, r': string)
    requires ps != [] && ps[0].text != "" && Lex(Flatten(ps) + r, php) == Ok(ps[0]) && Lex(Flatten(ps) + r', php) != Ok(ps[0])
    ensures Apart(ps, php, r, r', 0)
  {
    hide Lex, Flatten;
    assert ps[0..] == ps && ps[..0] == [];
  }

  lemma ApartNext(ps: seq<Piece>, php: bool, r: string, r': string, k: nat)
    requires ps != [] && ps[0].text != "" && Lex(Flatten(ps) + r', php) == Ok(ps[0])
    requires Apart(ps[1..], After(ps[0], php), r, r', k)
    ensures Apart(ps, php, r, r', k + 1)
  {
    hide Lex, Flatten, Lexes, ModeAfter;
    LexesCons(ps, php, k, r');
    assert ps[k + 1] == ps[1..][k];
  }

  lemma LexesCons(ps: seq<Piece>, php: bool, k: nat, r: string)
    requires k < |ps| && ps[0].text != "" && Lex(Flatten(ps) + r, php) == Ok(ps[0])
    requires Lexes(ps[1..][..k], After(ps[0], php), Flatten(ps[1..][k..]) + r)
    ensures ps[k + 1..] == ps[1..][k..] && ModeAfter(ps[..k + 1], php) == ModeAfter(ps[1..][..k], After(ps[0], php))
    ensures Lexes(ps[..k + 1], php, Flatten(ps[k + 1..]) + r)
  {
    hide Lex, Flatten;
    var i := k + 1;
    assert ps[..i][1..] == ps[1..][..k];
    assert ps == ps[..i] + ps[i..];
    FlattenConcat(ps[..i], ps[i..]);
    assert Flatten(ps[..i]) + (Flatten(ps[i..]) + r) == Flatten(ps) + r;
  }

  /** The splice theorem.  In a scanned source, replace the pieces between a and
      b by a text that lexes into mid: the scan of the result is the old scan
      with those pieces replaced, exactly when the new text may follow the pieces
      before it. */
  lemma Splice(src: string, ps: seq<Piece>, a: nat, b: nat, mid: seq<Piece>)
    requires Scan(src, false) == Ok(ps) && a <= b <= |ps|
    requires Lexes(mid, ModeAfter(ps[..a], false), Flatten(ps[b..]))
    requires ModeAfter(mid, ModeAfter(ps[..a], false)) == ModeAfter(ps[..b], false)
    ensures Scan(Flatten(ps[..a]) + Flatten(mid) + Flatten(ps[b..]), false) == Ok(ps[..a] + mid + ps[b..]) <==> Follows(ps[..a], Flatten(mid) + Flatten(ps[b..]))
  {
    hide Lex, Scan, Lexes, Follows, Flatten, ModeAfter;
    var pre, post := ps[..a], ps[b..];
    var m := ModeAfter(pre, false);
    var out := Flatten(pre) + Flatten(mid) + Flatten(post);
    assert out == Flatten(pre) + (Flatten(mid) + Flatten(post));
    assert pre + (mid + post) == pre + mid + post;
    if Follows(pre, Flatten(mid) + Flatten(post)) {
      SplitScan(src, ps, a);
      SplitScan(src, ps, b);
      LexesMove(pre, false, Flatten(ps[a..]), Flatten(mid) + Flatten(post));
      LexesScan(mid, m, Flatten(post));
      LexesScan(pre, false, Flatten(mid) + Flatten(post));
    }
    if Scan(out, false) == Ok(pre + mid + post) {
      ScanLexes(out, false);
      LexesConcat(pre, mid + post, false, "");
      FlattenConcat(mid, post);
      assert Flatten(mid + post) + "" == Flatten(mid + post);
      LexesFollows(pre, false, Flatten(mid) + Flatten(post));
    }
  }

  /** A scan can be cut between any two of its pieces. */
  lemma SplitScan(src: string, ps: seq<Piece>, k: nat)
    requires Scan(src, false) == Ok(ps) && k <= |ps|
    ensures src == Flatten(ps[..k]) + Flatten(ps[k..])
    ensures Lexes(ps[..k], false, Flatten(ps[k..]))
    ensures Scan(Flatten(ps[k..]), ModeAfter(ps[..k], false)) == Ok(ps[k..])
  {
    hide Lex;
    ScanLexes(src, false);
    assert ps == ps[..k] + ps[k..];
    FlattenConcat(ps[..k], ps[k..]);
    LexesConcat(ps[..k], ps[k..], false, "");
    assert Flatten(ps[k..]) + "" == Flatten(ps[k..]);
    LexesScan(ps[k..], ModeAfter(ps[..k], false), "");
    assert ps[k..] + [] == ps[k..];
  }
}
