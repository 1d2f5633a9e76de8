/** String keys and the scalar literals that are written into PHP source. */
module PhpLiterals {
  import opened Text
  import opened PhpLexer

  // ----- keys -----

  /** phpLiteralKey on the text between the quotes. */
  function DecodeKey(s: string, quote: char): Result<string, PhpError>
    decreases |s|
  {
    if s == "" then Ok("")
    else if quote == '"' && s[0] == '$' then Err(InterpolatedKey)
    else if s[0] == '\\' && |s| > 1 && (s[1] == quote || s[1] == '\\' || (quote == '"' && s[1] == '$')) then
      Prepend(s[1], DecodeKey(s[2..], quote))
    else if s[0] == '\\' && |s| > 1 && quote == '"' then
      if s[1] == 'n' then Prepend('\n', DecodeKey(s[2..], quote))
      else if s[1] == 'r' then Prepend('\r', DecodeKey(s[2..], quote))
      else if s[1] == 't' then Prepend('\t', DecodeKey(s[2..], quote))
      else Err(KeyEscape)
    else Prepend(s[0], DecodeKey(s[1..], quote))
  }

  function Prepend(c: char, r: Result<string, PhpError>): Result<string, PhpError> {
    match r case Err(e) => Err(e) case Ok(s) => Ok([c] + s)
  }

  function LiteralKey(p: Piece): Result<string, PhpError> {
    if p.kind != Quoted || |p.text| < 2 then Err(KeyNotString)
    else DecodeKey(p.text[1..|p.text| - 1], p.text[0])
  }

  // ----- quoting -----

  /** strings.ReplaceAll with a one-character pattern. */
  function ReplaceAll(s: string, c: char, sub: string): string {
    if s == "" then "" else (if s[0] == c then sub else [s[0]]) + ReplaceAll(s[1..], c, sub)
  }

  /** phpSingleQuotedString */
  function SingleQuoted(value: string): string {
    "'" + ReplaceAll(ReplaceAll(value, '\\', "\\\\"), '\'', "\\'") + "'"
  }

  /** What the two replacements amount to, one character at a time. */
  function Escaped(value: string): string {
    if value == "" then ""
    else (if value[0] == '\\' then "\\\\" else if value[0] == '\'' then "\\'" else [value[0]]) + Escaped(value[1..])
  }

  lemma {:induction false} ReplaceAllConcat(a: string, b: string, c: char, sub: string)
    ensures ReplaceAll(a + b, c, sub) == ReplaceAll(a, c, sub) + ReplaceAll(b, c, sub)
  {
    if a == "" {
      assert a + b == b;
    } else {
      assert (a + b)[1..] == a[1..] + b;
      ReplaceAllConcat(a[1..], b, c, sub);
    }
  }

  lemma {:induction false} EscapedIs(value: string)
    ensures ReplaceAll(ReplaceAll(value, '\\', "\\\\"), '\'', "\\'") == Escaped(value)
  {
    if value != "" {
      var c := value[0];
      var inner := ReplaceAll(value[1..], '\\', "\\\\");
      var head := if c == '\\' then "\\\\" else [c];
      EscapedIs(value[1..]);
      assert ReplaceAll(value, '\\', "\\\\") == head + inner;
      ReplaceAllConcat(head, inner, '\'', "\\'");
      ReplaceShort(c);
    }
  }

  lemma ReplaceShort(c: char)
    ensures ReplaceAll("\\\\", '\'', "\\'") == "\\\\"
    ensures ReplaceAll([c], '\'', "\\'") == if c == '\'' then "\\'" else [c]
  {
  }

  /** Quoting and decoding a key are inverse. */
  lemma {:induction false} DecodeEscaped(value: string)
    ensures DecodeKey(Escaped(value), '\'') == Ok(value)
  {
    if value != "" {
      DecodeEscaped(value[1..]);
      var s := Escaped(value);
      if value[0] == '\\' || value[0] == '\'' {
        assert s[2..] == Escaped(value[1..]);
      } else {
        assert s[1..] == Escaped(value[1..]);
      }
      assert [value[0]] + value[1..] == value;
    }
  }

  /** How a character is written between double quotes. */
  function DoubleChar(c: char): string {
    match c
    case '\\' => "\\\\" case '"' => "\\\"" case '$' => "\\$" case '\n' => "\\n" case '\r' => "\\r" case '\t' => "\\t"
    case _ => [c]
  }

  function DoubleEscaped(value: string): string { if value == "" then "" else DoubleChar(value[0]) + DoubleEscaped(value[1..]) }

  lemma DecodeChar(c: char, rest: string)
    ensures DecodeKey(DoubleChar(c) + rest, '"') == Prepend(c, DecodeKey(rest, '"'))
  {
    if c in ['\\', '"', '$', '\n', '\r', '\t'] {
      DecodePair(DoubleChar(c)[1], rest);
    } else {
      assert ([c] + rest)[1..] == rest;
    }
  }

  lemma DecodePair(d: char, rest: string)
    requires d in ['\\', '"', '$', 'n', 'r', 't']
    ensures DecodeKey(['\\', d] + rest, '"') == Prepend(if d == 'n' then '\n' else if d == 'r' then '\r' else if d == 't' then '\t' else d, DecodeKey(rest, '"'))
  {
    var s := ['\\', d] + rest;
    assert s[2..] == rest && s[0] == '\\' && s[1] == d;
  }

  /** In double quotes six escapes are decoded ... */
  lemma {:induction false} DecodeDouble(value: string, rest: string)
    ensures DecodeKey(DoubleEscaped(value) + rest, '"') == match DecodeKey(rest, '"') case Err(e) => Err(e) case Ok(s) => Ok(value + s)
  {
    hide DoubleChar, DecodeKey;
    if value == "" {
      assert DoubleEscaped(value) + rest == rest;
      if DecodeKey(rest, '"').Ok? { assert "" + DecodeKey(rest, '"').value == DecodeKey(rest, '"').value; }
    } else {
      var t := DoubleEscaped(value[1..]) + rest;
      assert DoubleEscaped(value) + rest == DoubleChar(value[0]) + t;
      DecodeChar(value[0], t);
      DecodeDouble(value[1..], rest);
      if DecodeKey(rest, '"').Ok? { assert [value[0]] + (value[1..] + DecodeKey(rest, '"').value) == value + DecodeKey(rest, '"').value; }
    }
  }

  /** ... and variables and all other escapes are refused. */
  lemma DecodeRefuses(value: string, rest: string, c: char)
    ensures DecodeKey(DoubleEscaped(value), '"') == Ok(value)
    ensures DecodeKey(DoubleEscaped(value) + ("$" + rest), '"') == Err(InterpolatedKey)
    ensures c !in "\\\"$nrt" ==> DecodeKey(DoubleEscaped(value) + (['\\', c] + rest), '"') == Err(KeyEscape)
  {
    DecodeDouble(value, "");
    assert DoubleEscaped(value) + "" == DoubleEscaped(value) && value + "" == value;
    DecodeDouble(value, "$" + rest);
    if c !in "\\\"$nrt" {
      DecodeDouble(value, ['\\', c] + rest);
      OtherEscape(c, rest);
    }
  }

  lemma OtherEscape(c: char, rest: string)
    requires c !in "\\\"$nrt"
    ensures DecodeKey(['\\', c] + rest, '"') == Err(KeyEscape)
  {
    var s := ['\\', c] + rest;
    assert s[0] == '\\' && s[1] == c;
    assert forall d :: d in ['\\', '"', '$', 'n', 'r', 't'] ==> d in "\\\"$nrt";
  }

  lemma {:induction false} EscapedCloses(value: string, r: string)
    ensures QuotedLength(Escaped(value) + "'" + r, '\'') == |Escaped(value)| + 1
  {
    var s := Escaped(value) + "'" + r;
    if value != "" {
      EscapedCloses(value[1..], r);
      if value[0] == '\\' || value[0] == '\'' {
        assert s[2..] == Escaped(value[1..]) + "'" + r;
      } else {
        assert s[1..] == Escaped(value[1..]) + "'" + r;
      }
    }
  }

  /** A quoted string scans as one token, whatever follows, and as a key it
      reads back as the text that was quoted. */
  lemma QuotedScans(value: string, r: string)
    ensures LexPhp(SingleQuoted(value) + r) == Ok(Piece(Quoted, SingleQuoted(value)))
    ensures LiteralKey(Piece(Quoted, SingleQuoted(value))) == Ok(value)
  {
    hide ReplaceAll, LexPhp, QuotedLength, Escaped, DecodeKey;
    EscapedIs(value);
    var e := Escaped(value);
    var t := SingleQuoted(value);
    EscapedCloses(value, r);
    QuoteLexes(e, r);
    assert t[1..|t| - 1] == e;
    DecodeEscaped(value);
  }

  lemma QuoteLexes(e: string, r: string)
    requires QuotedLength(e + "'" + r, '\'') == |e| + 1
    ensures LexPhp("'" + e + "'" + r) == Ok(Piece(Quoted, "'" + e + "'"))
  {
    hide QuotedLength;
    var s := "'" + e + "'" + r;
    assert s[1..] == e + "'" + r;
    assert s[..|e| + 2] == "'" + e + "'";
  }
}
