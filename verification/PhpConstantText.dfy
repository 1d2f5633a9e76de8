/** New `define` lines as text: what they read as, and what inserting them in PHP
    code parses to. */
module PhpConstantText {
  import opened Text
  import opened PhpLexer
  import S = Sequences
  import opened PhpTokens
  import opened PhpLiterals
  import opened PhpSplice
  import opened PhpScalars
  import opened PhpArray
  import opened PhpEntries
  import opened PhpArrayPatch
  import opened PhpDefines
  import opened PhpConstants

  function CallLine(key: string, value: string): string {
    "define( " + SingleQuoted(key) + ", " + value + " );"
  }

  function CallLines(keys: seq<string>, values: map<string, string>): (r: seq<string>)
    requires forall k :: k in keys ==> k in values
    ensures |r| == |keys|
  {
    seq(|keys|, i requires 0 <= i < |keys| => CallLine(keys[i], values[keys[i]]))
  }

  predicate Literals(values: map<string, string>) {
    forall k :: k in values ==> IsLiteral(values[k])
  }

  /** The new calls of keys, as tokens. */
  function Calls(keys: seq<string>, values: map<string, string>): (r: seq<NewCall>)
    requires Literals(values) && forall k :: k in keys ==> k in values
    ensures |r| == |keys|
    ensures forall i :: 0 <= i < |keys| ==> r[i] == NewCall(keys[i], LiteralPieces(values[keys[i]]))
  {
    seq(|keys|, i requires 0 <= i < |keys| => NewCall(keys[i], LiteralPieces(values[keys[i]])))
  }

  lemma CallsValid(keys: seq<string>, values: map<string, string>)
    requires Literals(values) && forall k :: k in keys ==> k in values
    ensures ValidCalls(Calls(keys, values))
  {
  }

  // ----- what a line reads as -----

  function CallPieces(gap: seq<Piece>, key: string, value: seq<Piece>): seq<Piece> {
    gap + ([Piece(Identifier, "define")] + ([Piece(Symbol, "(")] + (Blanks(" ") + ([Piece(Quoted, SingleQuoted(key))]
      + ([Piece(Symbol, ",")] + (Blanks(" ") + (value + (Blanks(" ") + ([Piece(Symbol, ")")] + [Piece(Symbol, ";")])))))))))
  }

  lemma CallLexemesPieces(gap: seq<Piece>, key: string, value: seq<Piece>)
    requires value != []
    ensures Pieces(CallLexemes(gap, key, value)) == CallPieces(gap, key, value)
  {
    hide SingleQuoted, Blanks, Pieces, ValueLexemes;
    var a := [Lexeme(gap, Piece(Identifier, "define")), Token([], "(")];
    var b := [Lexeme(Blanks(" "), Piece(Quoted, SingleQuoted(key))), Token([], ",")];
    var v := ValueLexemes(Blanks(" "), value);
    var c := [Token(Blanks(" "), ")"), Token([], ";")];
    assert CallLexemes(gap, key, value) == a + b + v + c;
    PiecesConcat(a + b + v, c);
    PiecesConcat(a + b, v);
    PiecesConcat(a, b);
    PiecesTwo(a[0], a[1]);
    PiecesTwo(b[0], b[1]);
    PiecesTwo(c[0], c[1]);
    ValuePieces(Blanks(" "), value);
  }

  lemma PiecesTwo(l: Lexeme, m: Lexeme)
    ensures Pieces([l, m]) == l.gap + [l.token] + m.gap + [m.token]
  {
    assert [l, m] == [l] + [m];
    PiecesConcat([l], [m]);
    PiecesOne(l);
    PiecesOne(m);
  }

  lemma LexDefine(r: string)
    requires r != "" && r[0] == '('
    ensures Lex("define" + r, true) == Ok(Piece(Identifier, "define"))
  {
    var s := "define" + r;
    assert s[1..] == "efine" + r;
    IdentifierAll("efine");
    assert "efine" + "" == "efine";
    IdentifierLengthMove("efine", "", r);
    assert s[..6] == "define";
  }

  lemma ReadsCall(lead: string, key: string, value: string, r: string)
    requires AllBlank(lead) && IsLiteral(value)
    ensures Reads(CallPieces(Blanks(lead), key, LiteralPieces(value)), lead + CallLine(key, value), r)
  {
    hide SingleQuoted, Blanks, Lexes, Lex, Flatten, ModeAfter, Reads, IsLiteral, LiteralPieces;
    ReadsFirm(';', r);
    ReadsFirm(')', ";" + r);
    ReadsConcat([Piece(Symbol, ")")], ")", [Piece(Symbol, ";")], ";", r);
    var s1, p1 := ")" + ";", [Piece(Symbol, ")")] + [Piece(Symbol, ";")];
    ReadsBlanks(" ", s1 + r);
    ReadsConcat(Blanks(" "), " ", p1, s1, r);
    var s2, p2 := " " + s1, Blanks(" ") + p1;
    ReadsLiteral(value, s2 + r);
    ReadsConcat(LiteralPieces(value), value, p2, s2, r);
    var s3, p3 := value + s2, LiteralPieces(value) + p2;
    ReadsBlanks(" ", s3 + r);
    ReadsConcat(Blanks(" "), " ", p3, s3, r);
    var s4, p4 := " " + s3, Blanks(" ") + p3;
    ReadsFirm(',', s4 + r);
    ReadsConcat([Piece(Symbol, ",")], ",", p4, s4, r);
    var s5, p5 := "," + s4, [Piece(Symbol, ",")] + p4;
    ReadsQuoted(key, s5 + r);
    ReadsConcat([Piece(Quoted, SingleQuoted(key))], SingleQuoted(key), p5, s5, r);
    var s6, p6 := SingleQuoted(key) + s5, [Piece(Quoted, SingleQuoted(key))] + p5;
    ReadsCallHead(lead, s6, p6, r);
    assert lead + ("define" + ("(" + (" " + s6))) == lead + CallLine(key, value) by {
      LineIs(SingleQuoted(key), value);
    }
  }

  lemma LineIs(q: string, v: string)
    ensures "define" + ("(" + (" " + (q + ("," + (" " + (v + (" " + (")" + ";")))))))) == "define( " + q + ", " + v + " );"
  {
  }

  lemma ReadsCallHead(lead: string, s: string, p: seq<Piece>, r: string)
    requires AllBlank(lead) && Reads(p, s, r)
    ensures Reads(Blanks(lead) + ([Piece(Identifier, "define")] + ([Piece(Symbol, "(")] + (Blanks(" ") + p))), lead + ("define" + ("(" + (" " + s))), r)
  {
    hide Blanks, Lexes, Lex, Flatten, ModeAfter, Reads;
    ReadsBlanks(" ", s + r);
    ReadsConcat(Blanks(" "), " ", p, s, r);
    var s1, p1 := " " + s, Blanks(" ") + p;
    ReadsFirm('(', s1 + r);
    ReadsConcat([Piece(Symbol, "(")], "(", p1, s1, r);
    var s2, p2 := "(" + s1, [Piece(Symbol, "(")] + p1;
    LexDefine(s2 + r);
    ReadsOne(Piece(Identifier, "define"), s2 + r);
    ReadsConcat([Piece(Identifier, "define")], "define", p2, s2, r);
    var s3, p3 := "define" + s2, [Piece(Identifier, "define")] + p2;
    ReadsBlanks(lead, s3 + r);
    ReadsConcat(Blanks(lead), lead, p3, s3, r);
  }

  /** The block of new lines reads as the new calls. */
  lemma {:induction false} ReadsCalls(lead: string, keys: seq<string>, values: map<string, string>, eol: string, r: string)
    requires AllBlank(lead) && AllBlank(eol) && keys != [] && Literals(values) && forall k :: k in keys ==> k in values
    ensures Reads(Pieces(NewLexemes(Blanks(lead), eol, Calls(keys, values))) + Blanks(eol), lead + (Join(CallLines(keys, values), eol) + eol), r)
    decreases |keys|
  {
    hide SingleQuoted, Blanks, Reads, IsLiteral, LiteralPieces, CallPieces, CallLine, Pieces, CallLexemes;
    var k, v, lines := keys[0], values[keys[0]], CallLines(keys, values);
    var ns := Calls(keys, values);
    LiteralPiecesNonempty(v);
    CallLexemesPieces(Blanks(lead), k, LiteralPieces(v));
    var c, head := CallLexemes(Blanks(lead), k, LiteralPieces(v)), lead + CallLine(k, v);
    if |keys| == 1 {
      assert ns[1..] == [] && NewLexemes(Blanks(lead), eol, ns) == c + [];
      assert c + [] == c;
      ReadsBlanks(eol, r);
      ReadsCall(lead, k, v, eol + r);
      ReadsConcat(Pieces(c), head, Blanks(eol), eol, r);
      assert head + eol == lead + (Join(lines, eol) + eol);
    } else {
      var rest := keys[1..];
      assert ns[1..] == Calls(rest, values) && lines[1..] == CallLines(rest, values);
      ReadsCalls(eol, rest, values, eol, r);
      var x, t := NewLexemes(Blanks(eol), eol, Calls(rest, values)), eol + (Join(lines[1..], eol) + eol);
      ReadsCall(lead, k, v, t + r);
      ReadsConcat(Pieces(c), head, Pieces(x) + Blanks(eol), t, r);
      PiecesConcat(c, x);
      assert head + t == lead + (Join(lines, eol) + eol);
      assert Pieces(c) + (Pieces(x) + Blanks(eol)) == Pieces(c + x) + Blanks(eol);
    }
  }

  // ----- the document with the new calls -----

  lemma CallBalanced(gap: seq<Piece>, n: NewCall)
    requires ValidCall(n)
    ensures Balanced(CallLexemes(gap, n.key, n.value))
  {
    hide MatchLength, ArgLength, SingleQuoted, Blanks, Flat, ValueLexemes, Split;
    var q := Lexeme(Blanks(" "), Piece(Quoted, SingleQuoted(n.key)));
    var v := ValueLexemes(Blanks(" "), n.value);
    QuotedScans(n.key, "");
    KeyIsLong(q.token);
    SingleNeutral(q);
    PlainNeutral(v);
    NewArgs(q, v);
    PartsBalanced([Part([q], [Token([], ",")]), Part(v, [])]);
    BalancedCall(Lexeme(gap, Piece(Identifier, "define")), [q, Token([], ",")] + v);
    assert CallLexemes(gap, n.key, n.value) ==
      [Lexeme(gap, Piece(Identifier, "define"))] + ([Token([], "(")] + ([q, Token([], ",")] + v) + [Token(Blanks(" "), ")")] + [Token([], ";")]);
  }

  lemma BalancedCall(name: Lexeme, inner: seq<Lexeme>)
    requires Balanced(inner) && name.Txt() == "define"
    ensures Balanced([name] + ([Token([], "(")] + inner + [Token(Blanks(" "), ")")] + [Token([], ";")]))
  {
    hide Blanks;
    var end, g := Token([], ";"), [Token([], "(")] + inner + [Token(Blanks(" "), ")")];
    assert g[1..|g| - 1] == inner;
    GroupBalanced(g);
    OneBalanced(name);
    OneBalanced(end);
    BalancedConcat(g, [end]);
    BalancedConcat([name], g + [end]);
  }

  lemma OneBalanced(l: Lexeme)
    requires !IsOpen(l.Txt()) && !IsClose(l.Txt())
    ensures Balanced([l])
  {
  }

  lemma {:induction false} CallsBalanced(gap: seq<Piece>, eol: string, ns: seq<NewCall>)
    requires ValidCalls(ns)
    ensures Balanced(NewLexemes(gap, eol, ns))
    decreases |ns|
  {
    hide Balanced, CallLexemes, Blanks;
    if ns == [] {
      CommaBalanced();
    } else {
      CallBalanced(gap, ns[0]);
      CallsBalanced(Blanks(eol), eol, ns[1..]);
      BalancedConcat(CallLexemes(gap, ns[0].key, ns[0].value), NewLexemes(Blanks(eol), eol, ns[1..]));
    }
  }

  lemma {:induction false} CallsWellFormed(gap: seq<Piece>, eol: string, ns: seq<NewCall>)
    requires ValidCalls(ns) && Trivia(gap)
    ensures WellFormed(NewLexemes(gap, eol, ns))
    decreases |ns|
  {
    hide SingleQuoted, WellFormed, Trivia, CallLexemes, Blanks;
    if ns == [] {
      NoneWellFormed();
    } else {
      CallsWellFormed(Blanks(eol), eol, ns[1..]);
      CallWellFormed(gap, ns[0]);
      WellFormedConcat(CallLexemes(gap, ns[0].key, ns[0].value), NewLexemes(Blanks(eol), eol, ns[1..]));
    }
  }

  lemma NoneWellFormed()
    ensures WellFormed([])
  {
  }

  lemma CallWellFormed(gap: seq<Piece>, n: NewCall)
    requires ValidCall(n) && Trivia(gap)
    ensures WellFormed(CallLexemes(gap, n.key, n.value))
  {
    hide SingleQuoted, Plain;
    ValueWellFormed(Blanks(" "), n.value);
  }

  /** The gap of the first new call is part of it. */
  lemma CallsGap(gap: seq<Piece>, g: seq<Piece>, eol: string, ns: seq<NewCall>)
    requires ns != [] && ValidCalls(ns)
    ensures Pieces(NewLexemes(gap + g, eol, ns)) == gap + Pieces(NewLexemes(g, eol, ns))
  {
    hide SingleQuoted, Blanks, Pieces, CallLexemes;
    var n, rest := ns[0], NewLexemes(Blanks(eol), eol, ns[1..]);
    assert ValidCall(n);
    PiecesConcat(CallLexemes(gap + g, n.key, n.value), rest);
    PiecesConcat(CallLexemes(g, n.key, n.value), rest);
    CallLexemesPieces(gap + g, n.key, n.value);
    CallLexemesPieces(g, n.key, n.value);
    S.Assoc(gap, g, CallPieces([], n.key, n.value));
    CallPiecesGap(gap + g, n.key, n.value);
    CallPiecesGap(g, n.key, n.value);
  }

  lemma CallPiecesGap(g: seq<Piece>, key: string, value: seq<Piece>)
    ensures CallPieces(g, key, value) == g + CallPieces([], key, value)
  {
  }

  /** The document with calls inserted at piece k of the gap before token c. */
  function WithCalls(d: Doc, c: nat, k: nat, lead: string, eol: string, ns: seq<NewCall>): Doc
    requires c <= |d.lexemes| && k <= |Gap(d, c)|
  {
    var gap, trail := Gap(d, c)[..k] + Blanks(lead), Blanks(eol) + Gap(d, c)[k..];
    Doc(d.lexemes[..c] + NewLexemes(gap, eol, ns) + PhpDefines.After(d.lexemes, c, trail), if c == |d.lexemes| then trail else d.tail)
  }

  lemma WithCallsPieces(d: Doc, c: nat, k: nat, lead: string, eol: string, ns: seq<NewCall>)
    requires c <= |d.lexemes| && k <= |Gap(d, c)| && ns != [] && ValidCalls(ns)
    ensures AllPieces(WithCalls(d, c, k, lead, eol, ns)) == Head(d, c, k) + (Pieces(NewLexemes(Blanks(lead), eol, ns)) + Blanks(eol)) + Rest(d, c, k)
  {
    hide Pieces, NewLexemes, Blanks;
    var ls, g := d.lexemes, Gap(d, c);
    var gap, trail := g[..k] + Blanks(lead), Blanks(eol) + g[k..];
    var x, y := NewLexemes(gap, eol, ns), PhpDefines.After(ls, c, trail);
    PiecesConcat(ls[..c] + x, y);
    PiecesConcat(ls[..c], x);
    CallsGap(g[..k], Blanks(lead), eol, ns);
    if c < |ls| {
      PiecesConcat([Lexeme(trail, ls[c].token)], ls[c + 1..]);
      PiecesOne(Lexeme(trail, ls[c].token));
    } else {
      PiecesNone();
    }
  }

  lemma PiecesNone()
    ensures Pieces([]) == []
  {
  }

  lemma WithCallsShape(d: Doc, c: nat, k: nat, lead: string, eol: string, ns: seq<NewCall>)
    requires c <= |d.lexemes| && k <= |Gap(d, c)| && ns != [] && ValidCalls(ns)
    requires WellFormed(d.lexemes) && Trivia(d.tail) && Balanced(d.lexemes)
    ensures var d' := WithCalls(d, c, k, lead, eol, ns);
      WellFormed(d'.lexemes) && Trivia(d'.tail) && Balanced(d'.lexemes) && d'.lexemes != []
  {
    hide NewLexemes, Blanks, Balanced;
    var ls, g := d.lexemes, Gap(d, c);
    assert Trivia(g) by { if c < |ls| { assert ls[c] in ls; } }
    var gap, trail := g[..k] + Blanks(lead), Blanks(eol) + g[k..];
    var x, y := NewLexemes(gap, eol, ns), PhpDefines.After(ls, c, trail);
    CallsWellFormed(gap, eol, ns);
    CallsBalanced(gap, eol, ns);
    NewNonempty(gap, eol, ns);
    CommaBalanced();
    assert ls == ls[..c] + [] + ls[c..];
    BalancedReplace(ls[..c], [], x, ls[c..]);
    if c < |ls| {
      assert ls[c..] == [ls[c]] + ls[c + 1..];
      SameBrackets(ls[..c] + x, ls[c], Lexeme(trail, ls[c].token), ls[c + 1..]);
    } else {
      assert ls[c..] == [];
    }
    assert WellFormed(y) by { if c < |ls| { assert ls[c] in ls; } }
  }

  lemma SameBrackets(a: seq<Lexeme>, l: Lexeme, m: Lexeme, b: seq<Lexeme>)
    requires l.token == m.token
    ensures Balanced(a + ([l] + b)) <==> Balanced(a + ([m] + b))
  {
    RunConcat([], a, [l] + b);
    RunConcat([], a, [m] + b);
    assert ([l] + b)[1..] == ([m] + b)[1..];
  }

  /** A block of new calls goes into PHP code: in front of it ends a line, or the
      block starts with a line break. */
  lemma InsertBlock(src: string, d: Doc, c: nat, k: nat, lead: string, keys: seq<string>, values: map<string, string>, eol: string)
    requires Parse(src) == Ok(d) && c <= |d.lexemes| && k <= |Gap(d, c)| && InPhp(d, c)
    requires AllBlank(lead) && AllBlank(eol) && keys != [] && Literals(values) && forall x :: x in keys ==> x in values
    requires Head(d, c, k) != []
    requires var p := Head(d, c, k)[|Head(d, c, k)| - 1];
      p.kind == Blank || (p.kind != Html && lead != "" && (lead[0] == '\r' || lead[0] == '\n'))
    ensures var pos := |Flatten(Head(d, c, k))|;
      && pos <= |src|
      && Parse(src[..pos] + (lead + (Join(CallLines(keys, values), eol) + eol)) + src[pos..]) == Ok(WithCalls(d, c, k, lead, eol, Calls(keys, values)))
  {
    hide Lexes, Lex, ModeAfter, Flatten, Scan, Parse, Balanced, Pieces, Reads, Blanks, Safe, CallLines, Calls, NewLexemes, WithCalls, InPhp, IsLiteral, Head, Rest, Literals;
    var pre, post, ns := Head(d, c, k), Rest(d, c, k), Calls(keys, values);
    var t := lead + (Join(CallLines(keys, values), eol) + eol);
    var mid := Pieces(NewLexemes(Blanks(lead), eol, ns)) + Blanks(eol);
    CallsValid(keys, values);
    ReadsCalls(lead, keys, values, eol, Flatten(post));
    ParseScan(src);
    HeadRest(src, d, c, k);
    var p := pre[|pre| - 1];
    if p.kind == Blank { BlankSafe(src, pre, post, t + Flatten(post)); } else { SafeLine(p, t + Flatten(post)); }
    InsertPieces(src, pre, post, mid, t);
    WithCallsPieces(d, c, k, lead, eol, ns);
    WithCallsShape(d, c, k, lead, eol, ns);
    ScanParse(Flatten(pre) + t + Flatten(post), WithCalls(d, c, k, lead, eol, ns));
    assert Flatten(pre) == src[..|Flatten(pre)|] && Flatten(post) == src[|Flatten(pre)|..];
  }

  lemma BlankSafe(src: string, pre: seq<Piece>, post: seq<Piece>, r: string)
    requires Scan(src, false) == Ok(pre + post) && pre != [] && pre[|pre| - 1].kind == Blank
    ensures Safe(pre[|pre| - 1], r)
  {
    hide Scan, Lex, Flatten, ModeAfter;
    var ps, n := pre + post, |pre| - 1;
    LexedAt(src, ps, n);
    LexMode(Flatten(ps[n..]), ModeAfter(ps[..n], false));
  }
}
