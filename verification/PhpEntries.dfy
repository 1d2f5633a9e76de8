/** The text and the tokens of a newly written array entry. */
module PhpEntries {
  import opened Text
  import opened PhpLexer
  import S = Sequences
  import opened PhpTokens
  import opened PhpLiterals
  import opened PhpSplice
  import opened PhpScalars
  import opened PhpArray

  const ARROW := Piece(Symbol, "=>")

  /** A literal as lexemes, behind a given gap. */
  function ValueLexemes(gap: seq<Piece>, ps: seq<Piece>): (ls: seq<Lexeme>)
    ensures |ls| == |ps|
    ensures forall i :: 0 <= i < |ps| ==> ls[i] == Lexeme(if i == 0 then gap else [], ps[i])
  {
    seq(|ps|, i requires 0 <= i < |ps| => Lexeme(if i == 0 then gap else [], ps[i]))
  }

  lemma {:induction false} BareValuePieces(ls: seq<Lexeme>, ps: seq<Piece>)
    requires |ls| == |ps| && forall i :: 0 <= i < |ps| ==> ls[i] == Lexeme([], ps[i])
    ensures Pieces(ls) == ps
  {
    if ls != [] {
      BareValuePieces(ls[1..], ps[1..]);
      assert [] + [ps[0]] + ps[1..] == ps;
    }
  }

  lemma ValuePieces(gap: seq<Piece>, ps: seq<Piece>)
    requires ps != []
    ensures Pieces(ValueLexemes(gap, ps)) == gap + ps
  {
    var ls := ValueLexemes(gap, ps);
    BareValuePieces(ls[1..], ps[1..]);
    assert gap + [ps[0]] + ps[1..] == gap + ps;
  }

  lemma {:induction false} PlainNeutral(ls: seq<Lexeme>)
    requires forall i :: 0 <= i < |ls| ==> Plain(ls[i].token)
    ensures Neutral(ls)
  {
    if ls != [] {
      SingleNeutral(ls[0]);
      PlainNeutral(ls[1..]);
      NeutralConcat([ls[0]], ls[1..]);
      assert ls == [ls[0]] + ls[1..];
    }
  }

  /** `'key' => sub,` */
  function EntryPart(gap: seq<Piece>, key: string, sub: seq<Lexeme>): Part {
    Part([Lexeme(gap, Piece(Quoted, SingleQuoted(key))), Lexeme(Blanks(" "), ARROW)] + sub, [COMMA])
  }

  lemma EntryPartValid(gap: seq<Piece>, key: string, sub: seq<Lexeme>)
    requires Neutral(sub) && sub != []
    ensures var p := EntryPart(gap, key, sub);
      ValidPart(p) && PartKey(p) == Ok(key) && p.arg[2..] == sub
  {
    hide ArgLength, LiteralKey, LexPhp, SingleQuoted;
    var k, a := Lexeme(gap, Piece(Quoted, SingleQuoted(key))), Lexeme(Blanks(" "), ARROW);
    QuotedScans(key, "");
    KeyIsLong(k.token);
    SingleNeutral(k);
    SingleNeutral(a);
    NeutralConcat([k], [a]);
    NeutralConcat([k] + [a], sub);
    assert [k, a] + sub == [k] + [a] + sub;
  }

  // ----- new nested arrays -----

  /** phpNestedValue */
  function NestedText(keys: seq<string>, value: string, indent: string, eol: string): string {
    if keys == [] then value
    else "[" + eol + indent + "    " + SingleQuoted(keys[0]) + " => " + NestedText(keys[1..], value, indent + "    ", eol) + "," + eol + indent + "]"
  }

  function NestedView(gap: seq<Piece>, keys: seq<string>, value: seq<Piece>, indent: string, eol: string): ArrayView
    requires keys != []
    decreases |keys|, 0
  {
    ArrayView(
      [Lexeme(gap, Piece(Symbol, "["))],
      [EntryPart(Blanks(eol + indent + "    "), keys[0], Nested(Blanks(" "), keys[1..], value, indent + "    ", eol))],
      Lexeme(Blanks(eol + indent), Piece(Symbol, "]")))
  }

  function Nested(gap: seq<Piece>, keys: seq<string>, value: seq<Piece>, indent: string, eol: string): seq<Lexeme>
    decreases |keys|, 1
  {
    if keys == [] then ValueLexemes(gap, value) else Unparse(NestedView(gap, keys, value, indent, eol))
  }

  /** The new arrays are literal arrays: the keys lead to the value, and any other
      path leads nowhere. */
  lemma {:induction false} NestedLookup(gap: seq<Piece>, keys: seq<string>, value: seq<Piece>, indent: string, eol: string)
    requires value != [] && forall i :: 0 <= i < |value| ==> Plain(value[i])
    ensures var ls := Nested(gap, keys, value, indent, eol);
      && ls != [] && Neutral(ls)
      && Lookup(ls, keys) == Value(ValueLexemes(if keys == [] then gap else Blanks(" "), value))
    decreases |keys|
  {
    hide ArgLength, LiteralKey, ParseArray, EntryPart, ValueLexemes, Plain;
    if keys == [] {
      PlainNeutral(ValueLexemes(gap, value));
    } else {
      var sub := Nested(Blanks(" "), keys[1..], value, indent + "    ", eol);
      NestedLookup(Blanks(" "), keys[1..], value, indent + "    ", eol);
      EntryPartValid(Blanks(eol + indent + "    "), keys[0], sub);
      var v := NestedView(gap, keys, value, indent, eol);
      assert ValidHead(v.head, v.close);
      UnparseParse(v);
      assert FindKey(v.parts, keys[0]) == 0;
    }
  }

  lemma {:induction false} NestedMissing(gap: seq<Piece>, keys: seq<string>, value: seq<Piece>, indent: string, eol: string, q: seq<string>)
    requires value != [] && forall i :: 0 <= i < |value| ==> Plain(value[i])
    requires Diverge(keys, q)
    ensures Lookup(Nested(gap, keys, value, indent, eol), q) == Missing
    decreases |keys|
  {
    hide ArgLength, LiteralKey, ParseArray, EntryPart, ValueLexemes, Plain;
    var sub := Nested(Blanks(" "), keys[1..], value, indent + "    ", eol);
    NestedLookup(Blanks(" "), keys[1..], value, indent + "    ", eol);
    EntryPartValid(Blanks(eol + indent + "    "), keys[0], sub);
    var v := NestedView(gap, keys, value, indent, eol);
    assert ValidHead(v.head, v.close);
    UnparseParse(v);
    if q[0] == keys[0] {
      var i :| 0 <= i < |keys| && i < |q| && keys[i] != q[i];
      assert keys[1..][i - 1] == keys[i] && q[1..][i - 1] == q[i];
      NestedMissing(Blanks(" "), keys[1..], value, indent + "    ", eol, q[1..]);
      assert FindKey(v.parts, q[0]) == 0;
    }
  }

  // ----- the pieces of an entry -----

  predicate AllBlank(s: string) { forall i :: 0 <= i < |s| ==> IsBlank(s[i]) }

  /** t scans in PHP mode, in front of r, to the pieces ps, and PHP mode goes on. */
  ghost predicate Reads(ps: seq<Piece>, t: string, r: string) {
    Lexes(ps, true, r) && Flatten(ps) == t && ModeAfter(ps, true)
  }

  lemma ReadsConcat(a: seq<Piece>, s: string, b: seq<Piece>, t: string, r: string)
    requires Reads(a, s, t + r) && Reads(b, t, r)
    ensures Reads(a + b, s + t, r)
  {
    hide Lexes, Lex, ModeAfter, Flatten;
    LexesConcat(a, b, true, r);
    FlattenConcat(a, b);
    ModeConcat(a, b, true);
  }

  lemma ScanReads(ps: seq<Piece>, t: string, r: string, qs: seq<Piece>)
    requires Reads(ps, t, r) && Scan(r, true) == Ok(qs)
    ensures Scan(t + r, true) == Ok(ps + qs)
  {
    hide Lexes, Flatten, Scan;
    LexesScan(ps, true, r);
  }

  lemma ReadsBlanks(s: string, r: string)
    requires AllBlank(s)
    ensures Reads(Blanks(s), s, r)
  {
    BlanksLex(s, r);
  }

  lemma ReadsOne(p: Piece, r: string)
    requires p.text != "" && Lex(p.text + r, true) == Ok(p) && p.kind != Close && p.kind != Open
    ensures Reads([p], p.text, r)
  {
    hide Lex;
    assert [p][1..] == [];
    assert Flatten([p]) == p.text;
    ModeOne(p, true);
    assert Lexes([p][1..], After(p, true), r);
  }

  lemma ReadsFirm(c: char, r: string)
    requires Firm(c)
    ensures Reads([Piece(Symbol, [c])], [c], r)
  {
    LexFirm(c, r);
    ReadsOne(Piece(Symbol, [c]), r);
  }

  lemma ReadsQuoted(value: string, r: string)
    ensures Reads([Piece(Quoted, SingleQuoted(value))], SingleQuoted(value), r)
  {
    hide SingleQuoted, Lex, LexPhp;
    QuotedScans(value, r);
    QuotedNonempty(value);
    LexIsPhp(SingleQuoted(value) + r);
    ReadsOne(Piece(Quoted, SingleQuoted(value)), r);
  }

  lemma QuotedNonempty(value: string)
    ensures |SingleQuoted(value)| >= 2
  {
  }

  function EntryPieces(gap: seq<Piece>, key: string, sub: seq<Piece>): seq<Piece> {
    gap + [Piece(Quoted, SingleQuoted(key))] + Blanks(" ") + [ARROW] + sub + [COMMA.token]
  }

  lemma EntryFlat(gap: seq<Piece>, key: string, sub: seq<Lexeme>)
    ensures Pieces(Flat([EntryPart(gap, key, sub)])) == EntryPieces(gap, key, Pieces(sub))
  {
    hide SingleQuoted, Blanks;
    var p := EntryPart(gap, key, sub);
    var k, a := Lexeme(gap, Piece(Quoted, SingleQuoted(key))), Lexeme(Blanks(" "), ARROW);
    assert Flat([p]) == p.arg + p.comma by { assert [p][1..] == []; assert Flat([]) == []; }
    assert p.arg + p.comma == [k] + ([a] + (sub + [COMMA]));
    PiecesConcat([k], [a] + (sub + [COMMA]));
    PiecesConcat([a], sub + [COMMA]);
    PiecesConcat(sub, [COMMA]);
    PiecesOne(k);
    PiecesOne(a);
    PiecesOne(COMMA);
  }

  lemma PiecesOne(l: Lexeme)
    ensures Pieces([l]) == l.gap + [l.token]
  {
  }

  /** The text of an entry reads as its pieces. */
  lemma ReadsEntry(gap: string, key: string, sub: seq<Piece>, t: string, r: string)
    requires AllBlank(gap) && Reads(sub, t, "," + r)
    ensures Reads(EntryPieces(Blanks(gap), key, sub), gap + SingleQuoted(key) + " =>" + t + ",", r)
  {
    hide SingleQuoted, Blanks, Lexes, Lex, Flatten, ModeAfter, Reads;
    var q := SingleQuoted(key);
    ReadsFirm(',', r);
    ReadsConcat(sub, t, [COMMA.token], ",", r);
    var s1, p1 := t + ",", sub + [COMMA.token];
    LexArrow(s1 + r);
    ReadsOne(ARROW, s1 + r);
    ReadsConcat([ARROW], "=>", p1, s1, r);
    var s2, p2 := "=>" + s1, [ARROW] + p1;
    ReadsBlanks(" ", s2 + r);
    ReadsConcat(Blanks(" "), " ", p2, s2, r);
    var s3, p3 := " " + s2, Blanks(" ") + p2;
    ReadsQuoted(key, s3 + r);
    ReadsConcat([Piece(Quoted, q)], q, p3, s3, r);
    var s4, p4 := q + s3, [Piece(Quoted, q)] + p3;
    ReadsBlanks(gap, s4 + r);
    ReadsConcat(Blanks(gap), gap, p4, s4, r);
    assert Blanks(gap) + p4 == EntryPieces(Blanks(gap), key, sub);
    assert gap + s4 == gap + q + " =>" + t + ",";
  }

  function BracketPieces(gap: seq<Piece>, inner: seq<Piece>, last: seq<Piece>): seq<Piece> {
    gap + ([Piece(Symbol, "[")] + (inner + (last + [Piece(Symbol, "]")])))
  }

  lemma ReadsBracketed(gap: string, inner: seq<Piece>, t: string, last: string, r: string)
    requires AllBlank(gap) && AllBlank(last) && Reads(inner, t, last + ("]" + r))
    ensures Reads(BracketPieces(Blanks(gap), inner, Blanks(last)), gap + "[" + t + last + "]", r)
  {
    hide Blanks, Lexes, Lex, Flatten, ModeAfter, Reads;
    ReadsFirm(']', r);
    ReadsBlanks(last, "]" + r);
    ReadsConcat(Blanks(last), last, [Piece(Symbol, "]")], "]", r);
    var s1, p1 := last + "]", Blanks(last) + [Piece(Symbol, "]")];
    assert last + ("]" + r) == s1 + r;
    ReadsConcat(inner, t, p1, s1, r);
    var s2, p2 := t + s1, inner + p1;
    ReadsFirm('[', s2 + r);
    ReadsConcat([Piece(Symbol, "[")], "[", p2, s2, r);
    var s3, p3 := "[" + s2, [Piece(Symbol, "[")] + p2;
    ReadsBlanks(gap, s3 + r);
    ReadsConcat(Blanks(gap), gap, p3, s3, r);
    assert gap + s3 == gap + "[" + t + last + "]";
  }

  /** The text of new nested arrays reads as their pieces. */
  lemma {:induction false} ReadsNested(gap: string, keys: seq<string>, value: string, indent: string, eol: string, r: string)
    requires IsLiteral(value) && AllBlank(gap) && AllBlank(indent) && AllBlank(eol)
    requires keys == [] ==> r != "" && AfterValue(r[0])
    ensures Reads(Pieces(Nested(Blanks(gap), keys, LiteralPieces(value), indent, eol)), gap + NestedText(keys, value, indent, eol), r)
    decreases |keys|
  {
    hide SingleQuoted, Blanks, Lexes, Lex, Flatten, ModeAfter, Reads, IsLiteral, LiteralPieces, EntryPieces, Pieces;
    var vps := LiteralPieces(value);
    if keys == [] {
      LiteralPiecesNonempty(value);
      ValuePieces(Blanks(gap), vps);
      ReadsLiteral(value, r);
      ReadsBlanks(gap, value + r);
      ReadsConcat(Blanks(gap), gap, vps, value, r);
    } else {
      var sub := Nested(Blanks(" "), keys[1..], vps, indent + "    ", eol);
      var t := NestedText(keys[1..], value, indent + "    ", eol);
      var inner, last := eol + indent + "    ", eol + indent;
      var r1 := last + ("]" + r);
      ReadsNested(" ", keys[1..], value, indent + "    ", eol, "," + r1);
      ReadsEntry(inner, keys[0], Pieces(sub), " " + t, r1);
      var e := inner + SingleQuoted(keys[0]) + " =>" + (" " + t) + ",";
      ReadsBracketed(gap, EntryPieces(Blanks(inner), keys[0], Pieces(sub)), e, last, r);
      NestedPieces(Blanks(gap), keys, vps, indent, eol);
      NestedTextIs(gap, keys, value, indent, eol);
    }
  }

  lemma NestedTextIs(gap: string, keys: seq<string>, value: string, indent: string, eol: string)
    requires keys != []
    ensures var t := NestedText(keys[1..], value, indent + "    ", eol);
      var e := (eol + indent + "    ") + SingleQuoted(keys[0]) + " =>" + (" " + t) + ",";
      gap + NestedText(keys, value, indent, eol) == gap + "[" + e + (eol + indent) + "]"
  {
    hide SingleQuoted, NestedText;
    var t, k, p := NestedText(keys[1..], value, indent + "    ", eol), SingleQuoted(keys[0]), eol + indent + "    ";
    NestedOpen(keys, value, indent, eol);
    assert " =>" + " " == " => ";
    S.Assoc("[" + p + k, " =>", " ");
    S.Assoc("[" + p + k + " =>", " ", t);
    S.Assoc("[" + p, k, " =>");
    S.Assoc("[", p, k + " =>");
    S.Assoc(p, k, " =>");
    S.Assoc("[", p + k + " =>", " " + t);
    S.Assoc("[", p + k + " =>" + (" " + t), ",");
    var e := p + k + " =>" + (" " + t) + ",";
    S.Assoc("[" + e, eol, indent);
    S.Assoc(gap, "[" + e + (eol + indent), "]");
    S.Assoc(gap, "[" + e, eol + indent);
    S.Assoc(gap, "[", e);
  }

  lemma NestedOpen(keys: seq<string>, value: string, indent: string, eol: string)
    requires keys != []
    ensures
      var t := NestedText(keys[1..], value, indent + "    ", eol);
      NestedText(keys, value, indent, eol) == "[" + (eol + indent + "    ") + SingleQuoted(keys[0]) + " => " + t + "," + eol + indent + "]"
  {
    hide SingleQuoted;
    S.Assoc("[", eol, indent);
    S.Assoc("[", eol + indent, "    ");
  }

  lemma LiteralPiecesNonempty(v: string)
    requires IsLiteral(v)
    ensures LiteralPieces(v) != [] && forall i :: 0 <= i < |LiteralPieces(v)| ==> Plain(LiteralPieces(v)[i])
  {
  }

  lemma ReadsLiteral(v: string, r: string)
    requires IsLiteral(v) && r != "" && AfterValue(r[0])
    ensures Reads(LiteralPieces(v), v, r)
  {
    LiteralLexes(v, r);
  }

  lemma NestedPieces(gap: seq<Piece>, keys: seq<string>, value: seq<Piece>, indent: string, eol: string)
    requires keys != []
    ensures var sub := Nested(Blanks(" "), keys[1..], value, indent + "    ", eol);
      Pieces(Nested(gap, keys, value, indent, eol)) ==
        BracketPieces(gap, EntryPieces(Blanks(eol + indent + "    "), keys[0], Pieces(sub)), Blanks(eol + indent))
  {
    hide SingleQuoted, Blanks, EntryPart, EntryPieces, Flat;
    var v := NestedView(gap, keys, value, indent, eol);
    var sub := Nested(Blanks(" "), keys[1..], value, indent + "    ", eol);
    EntryFlat(Blanks(eol + indent + "    "), keys[0], sub);
    PiecesConcat(v.head + Flat(v.parts), [v.close]);
    PiecesConcat(v.head, Flat(v.parts));
    PiecesOne(v.head[0]);
    PiecesOne(v.close);
    assert v.head == [v.head[0]];
  }
}
