/** The literals that renderPHPScalar writes, and why they can be put anywhere a
    value may stand. */
module PhpScalars {
  import opened Text
  import opened PhpLexer
  import opened PhpTokens
  import opened PhpLiterals
  import opened PhpSplice

  /** Managed scalar data; a number is given by the text Go prints for it. */
  datatype Scalar = Null | Str(s: string) | Bool(b: bool) | Number(text: string)

  predicate IsDigit(c: char) { '0' <= c <= '9' }

  /** What Go prints for a finite number: digits, with a sign, a point or an
      exponent only where a digit follows. */
  predicate Numeral(s: string) {
    && s != "" && IsDigit(s[|s| - 1])
    && forall i :: 0 <= i < |s| - 1 ==> MayPrecede(s[i], s[i + 1])
  }

  predicate MayPrecede(c: char, d: char) {
    if c == '-' || c == '.' || c == '+' then IsDigit(d)
    else if c == 'e' then d == '+' || d == '-'
    else IsDigit(c)
  }

  predicate GoNumber(s: string) {
    Numeral(s) || s == "NaN" || s == "+Inf" || s == "-Inf"
  }

  predicate MentionsAny(s: string, letters: string) {
    exists i :: 0 <= i < |s| && s[i] in letters
  }

  /** renderPHPScalar */
  function RenderScalar(v: Scalar): Result<string, PhpError> {
    match v
    case Null => Ok("null")
    case Str(s) => Ok(SingleQuoted(s))
    case Bool(b) => Ok(if b then "true" else "false")
    case Number(text) => if MentionsAny(Lower(text), "naif") then Err(NonFiniteNumber) else Ok(text)
  }

  // ----- literals -----

  predicate Plain(p: Piece) {
    && (p.kind == Quoted || p.kind == Identifier || p.kind == Symbol)
    && !IsOpen(p.text) && !IsClose(p.text) && p.text != ","
  }

  predicate EndsValue(p: Piece) {
    p.kind == Quoted || p.kind == Identifier || (|p.text| == 1 && IsDigit(p.text[0]))
  }

  /** v scans, on its own, to plain tokens, the last of which does not run into
      what follows a value. */
  predicate IsLiteral(v: string) {
    match Scan(v, true)
    case Err(_) => false
    case Ok(ps) => ps != [] && (forall i :: 0 <= i < |ps| ==> Plain(ps[i])) && EndsValue(ps[|ps| - 1])
  }

  /** The characters that a blank, a comment or a separator starts with. */
  predicate AfterValue(c: char) { IsBlank(c) || Firm(c) || c == '#' || c == '/' }

  function LiteralPieces(v: string): seq<Piece>
    requires IsLiteral(v)
  {
    Scan(v, true).value
  }

  lemma {:induction false} PlainMode(ps: seq<Piece>)
    requires forall i :: 0 <= i < |ps| ==> Plain(ps[i])
    ensures ModeAfter(ps, true)
  {
    if ps != [] { PlainMode(ps[1..]); }
  }

  /** A literal scans the same in front of anything that can follow a value. */
  lemma LiteralLexes(v: string, r: string)
    requires IsLiteral(v) && r != "" && AfterValue(r[0])
    ensures Lexes(LiteralPieces(v), true, r) && Flatten(LiteralPieces(v)) == v && ModeAfter(LiteralPieces(v), true)
  {
    hide Lex, Scan, Safe, Plain, Lexes, AfterValue;
    var ps := LiteralPieces(v);
    ScanLexes(v, true);
    ValueSafe(ps[|ps| - 1], r);
    SafeFollows(ps, r);
    LexesMove(ps, true, "", r);
    PlainMode(ps);
  }

  lemma ValueSafe(p: Piece, r: string)
    requires Plain(p) && EndsValue(p) && r != "" && AfterValue(r[0])
    ensures Safe(p, r)
  {
  }

  function NumeralPieces(s: string): (ps: seq<Piece>)
    ensures |ps| == |s|
    ensures forall i :: 0 <= i < |s| ==> ps[i] == Piece(if s[i] == 'e' then Identifier else Symbol, [s[i]])
  {
    seq(|s|, i requires 0 <= i < |s| => Piece(if s[i] == 'e' then Identifier else Symbol, [s[i]]))
  }

  lemma {:induction false} NumeralScans(s: string)
    requires Numeral(s)
    ensures Scan(s, true) == Ok(NumeralPieces(s))
  {
    hide Lex, Scan;
    var p := NumeralPieces(s)[0];
    NumeralHead(s);
    ScanStep(s, true, p);
    if |s| > 1 {
      NumeralTail(s);
      NumeralScans(s[1..]);
      assert NumeralPieces(s) == [p] + NumeralPieces(s[1..]);
    } else {
      assert s[1..] == "";
      assert NumeralPieces(s) == [p] + [];
      ScanNothing(true);
    }
  }

  lemma NumeralTail(s: string)
    requires Numeral(s) && |s| > 1
    ensures Numeral(s[1..])
  {
  }

  lemma NumeralHead(s: string)
    requires Numeral(s)
    ensures Lex(s, true) == Ok(Piece(if s[0] == 'e' then Identifier else Symbol, [s[0]]))
  {
    assert s[..1] == [s[0]];
    if s[0] == 'e' {
      assert |s| > 1;
      assert s[1..][0] == s[1];
      assert IdentifierLength(s[1..]) == 0;
    }
  }

  lemma LexScan(t: string, p: Piece)
    requires t != "" && Lex(t, true) == Ok(p) && p.text == t && p.kind != Close
    ensures Scan(t, true) == Ok([p])
  {
    hide Lex;
    assert t[|t|..] == "";
    assert [p] + [] == [p];
  }

  lemma WordScans(w: string)
    requires w != "" && forall i :: 0 <= i < |w| ==> 'a' <= w[i] <= 'z'
    ensures Scan(w, true) == Ok([Piece(Identifier, w)])
  {
    hide Scan;
    IdentifierAll(w[1..]);
    WordLexes(w);
    LexScan(w, Piece(Identifier, w));
  }

  lemma WordLexes(w: string)
    requires w != "" && 'a' <= w[0] <= 'z' && IdentifierLength(w[1..]) == |w| - 1
    ensures Lex(w, true) == Ok(Piece(Identifier, w))
  {
    hide IdentifierLength, LineLength, LexBlockComment, QuotedLength;
    assert w[..|w|] == w;
  }

  lemma {:induction false} IdentifierAll(w: string)
    requires forall i :: 0 <= i < |w| ==> 'a' <= w[i] <= 'z'
    ensures IdentifierLength(w) == |w|
  {
    if w != "" { IdentifierAll(w[1..]); }
  }

  /** Everything renderPHPScalar returns is a literal. */
  lemma RenderedIsLiteral(v: Scalar)
    requires v.Number? ==> GoNumber(v.text)
    requires RenderScalar(v).Ok?
    ensures IsLiteral(RenderScalar(v).value)
  {
    hide Lex, Scan, Numeral, SingleQuoted;
    var t := RenderScalar(v).value;
    match v
    case Str(s) => QuotedIsLiteral(s);
    case Number(text) => NumberIsLiteral(text);
    case _ => WordScans(t);
  }

  lemma QuotedIsLiteral(s: string)
    ensures IsLiteral(SingleQuoted(s)) && LiteralPieces(SingleQuoted(s)) == [Piece(Quoted, SingleQuoted(s))]
  {
    hide Lex, Scan, ReplaceAll;
    var t := SingleQuoted(s);
    assert t + "" == t;
    LexIsPhp(t + "");
    QuotedScans(s, "");
    LexScan(t, Piece(Quoted, t));
  }

  lemma LexIsPhp(s: string)
    requires s != ""
    ensures Lex(s, true) == LexPhp(s)
  {
  }

  lemma NumberIsLiteral(text: string)
    requires GoNumber(text) && !MentionsAny(Lower(text), "naif")
    ensures IsLiteral(text)
  {
    hide Scan;
    FiniteIsNumeral(text);
    NumeralScans(text);
    forall i | 0 <= i < |text|
      ensures Plain(NumeralPieces(text)[i])
    {
      assert i < |text| - 1 ==> MayPrecede(text[i], text[i + 1]);
    }
  }

  lemma FiniteIsNumeral(text: string)
    requires GoNumber(text) && !MentionsAny(Lower(text), "naif")
    ensures Numeral(text)
  {
  }

  // ----- reading literals -----

  /** The scalar that PHP reads from the tokens of a literal: a word, a quoted string,
      or a number as it is written. */
  function ReadPieces(ps: seq<Piece>): Option<Scalar> {
    if ps == [Piece(Identifier, "null")] then Some(Null)
    else if ps == [Piece(Identifier, "true")] then Some(Bool(true))
    else if ps == [Piece(Identifier, "false")] then Some(Bool(false))
    else if |ps| == 1 && ps[0].kind == Quoted then
      match LiteralKey(ps[0]) case Ok(s) => Some(Str(s)) case Err(_) => None
    else if Numeral(Flatten(ps)) && forall i :: 0 <= i < |ps| ==> ps[i].kind == Symbol || ps[i] == Piece(Identifier, "e") then Some(Number(Flatten(ps)))
    else None
  }

  function ReadScalar(text: string): Option<Scalar> {
    match Scan(text, true) case Ok(ps) => ReadPieces(ps) case Err(_) => None
  }

  /** What was rendered reads back as the value; only the numbers that are not finite
      cannot be rendered. */
  lemma RenderedReads(v: Scalar)
    requires v.Number? ==> GoNumber(v.text)
    ensures RenderScalar(v).Err? <==> v == Number("NaN") || v == Number("+Inf") || v == Number("-Inf")
    ensures RenderScalar(v).Ok? ==> ReadScalar(RenderScalar(v).value) == Some(v)
  {
    hide Lex, Scan, Numeral, SingleQuoted, Flatten, LiteralKey;
    match v
    case Null => WordScans("null");
    case Bool(b) => WordScans(if b then "true" else "false");
    case Str(s) =>
      QuotedIsLiteral(s);
      QuotedScans(s, "");
    case Number(text) =>
      NotFinite(text);
      if !MentionsAny(Lower(text), "naif") {
        FiniteIsNumeral(text);
        NumeralReads(text);
      }
  }

  lemma NumeralReads(text: string)
    requires Numeral(text)
    ensures Scan(text, true) == Ok(NumeralPieces(text)) && ReadPieces(NumeralPieces(text)) == Some(Number(text))
  {
    hide Scan, LiteralKey;
    NumeralScans(text);
    ScanLexes(text, true);
    assert IsDigit(text[|text| - 1]);
    assert NumeralPieces(text)[|text| - 1] == Piece(Symbol, [text[|text| - 1]]);
  }

  lemma NotFinite(text: string)
    requires GoNumber(text)
    ensures MentionsAny(Lower(text), "naif") <==> text == "NaN" || text == "+Inf" || text == "-Inf"
  {
    if text == "NaN" || text == "+Inf" || text == "-Inf" {
      assert Lower(text)[1] == 'a' || Lower(text)[1] == 'i';
    } else {
      forall i | 0 <= i < |text|
        ensures Lower(text)[i] !in "naif"
      {
        assert i < |text| - 1 ==> MayPrecede(text[i], text[i + 1]);
      }
    }
  }
}
