/** Dotenv values: how they are written and how they are read back. */
module Dotenv {
  import opened Text
  import opened PhpLiterals

  datatype DotenvError = TrailingContent | BadQuoting | Unterminated

  /** Which characters are letters or digits: unicode.IsLetter and unicode.IsDigit. */
  type Classifier = char -> bool

  /** Spaces are no letters, and among ASCII only the usual ones are. */
  ghost predicate Classifies(letter: Classifier) {
    forall c :: letter(c) ==> !IsSpace(c) && (c as int < 128 ==> 'a' <= c <= 'z' || 'A' <= c <= 'Z' || '0' <= c <= '9')
  }

  // ----- writing -----

  predicate NeedsQuotes(value: string, letter: Classifier) {
    exists i :: 0 <= i < |value| && !letter(value[i]) && value[i] !in "_-./:@"
  }

  /** renderDotenvValue */
  function RenderValue(value: string, letter: Classifier): string {
    if value == "" || NeedsQuotes(value, letter) then
      "\"" + ReplaceAll(ReplaceAll(ReplaceAll(ReplaceAll(ReplaceAll(ReplaceAll(value, '\\', "\\\\"), '"', "\\\""), '\n', "\\n"), '\r', "\\r"), '\t', "\\t"), '$', "\\$") + "\""
    else value
  }

  /** What the six replacements make of one character. */
  function EscapeChar(c: char): string {
    if c == '\\' then "\\\\" else if c == '"' then "\\\"" else if c == '\n' then "\\n" else if c == '\r' then "\\r"
    else if c == '\t' then "\\t" else if c == '$' then "\\$" else [c]
  }

  function EscapeAll(s: string): string {
    if s == "" then "" else EscapeChar(s[0]) + EscapeAll(s[1..])
  }

  function Six(value: string): string {
    ReplaceAll(ReplaceAll(ReplaceAll(ReplaceAll(ReplaceAll(ReplaceAll(value, '\\', "\\\\"), '"', "\\\""), '\n', "\\n"), '\r', "\\r"), '\t', "\\t"), '$', "\\$")
  }

  lemma SixConcat(a: string, b: string)
    ensures Six(a + b) == Six(a) + Six(b)
  {
    hide ReplaceAll;
    ReplaceAllConcat(a, b, '\\', "\\\\");
    var a1, b1 := ReplaceAll(a, '\\', "\\\\"), ReplaceAll(b, '\\', "\\\\");
    ReplaceAllConcat(a1, b1, '"', "\\\"");
    var a2, b2 := ReplaceAll(a1, '"', "\\\""), ReplaceAll(b1, '"', "\\\"");
    ReplaceAllConcat(a2, b2, '\n', "\\n");
    var a3, b3 := ReplaceAll(a2, '\n', "\\n"), ReplaceAll(b2, '\n', "\\n");
    ReplaceAllConcat(a3, b3, '\r', "\\r");
    var a4, b4 := ReplaceAll(a3, '\r', "\\r"), ReplaceAll(b3, '\r', "\\r");
    ReplaceAllConcat(a4, b4, '\t', "\\t");
    ReplaceAllConcat(ReplaceAll(a4, '\t', "\\t"), ReplaceAll(b4, '\t', "\\t"), '$', "\\$");
  }

  lemma ReplaceOne(c: char, p: char, sub: string)
    ensures ReplaceAll([c], p, sub) == if c == p then sub else [c]
    ensures ReplaceAll("", p, sub) == ""
  {
  }

  lemma ReplaceTwo(c: char, d: char, p: char, sub: string)
    requires c != p && d != p
    ensures ReplaceAll([c, d], p, sub) == [c, d]
  {
    assert [c, d] == [c] + [d];
    ReplaceAllConcat([c], [d], p, sub);
    ReplaceOne(c, p, sub);
    ReplaceOne(d, p, sub);
  }

  lemma SixOne(c: char)
    ensures Six([c]) == EscapeChar(c)
  {
    hide ReplaceAll;
    ReplaceOne(c, '\\', "\\\\");
    ReplaceOne(c, '"', "\\\"");
    ReplaceOne(c, '\n', "\\n");
    ReplaceOne(c, '\r', "\\r");
    ReplaceOne(c, '\t', "\\t");
    ReplaceOne(c, '$', "\\$");
    ReplaceTwo('\\', '\\', '"', "\\\"");
    ReplaceTwo('\\', '\\', '\n', "\\n");
    ReplaceTwo('\\', '\\', '\r', "\\r");
    ReplaceTwo('\\', '\\', '\t', "\\t");
    ReplaceTwo('\\', '\\', '$', "\\$");
    ReplaceTwo('\\', '"', '\n', "\\n");
    ReplaceTwo('\\', '"', '\r', "\\r");
    ReplaceTwo('\\', '"', '\t', "\\t");
    ReplaceTwo('\\', '"', '$', "\\$");
    ReplaceTwo('\\', 'n', '\r', "\\r");
    ReplaceTwo('\\', 'n', '\t', "\\t");
    ReplaceTwo('\\', 'n', '$', "\\$");
    ReplaceTwo('\\', 'r', '\t', "\\t");
    ReplaceTwo('\\', 'r', '$', "\\$");
    ReplaceTwo('\\', 't', '$', "\\$");
  }

  /** The replacements work one character at a time. */
  lemma {:induction false} SixIsEscape(value: string)
    ensures Six(value) == EscapeAll(value)
  {
    hide Six, EscapeChar;
    if value == "" {
      SixEmpty();
    } else {
      assert value == [value[0]] + value[1..];
      SixConcat([value[0]], value[1..]);
      SixOne(value[0]);
      SixIsEscape(value[1..]);
    }
  }

  lemma SixEmpty()
    ensures Six("") == ""
  {
  }

  // ----- reading -----

  function HexDigit(c: char): int {
    if '0' <= c <= '9' then c as int - '0' as int
    else if 'a' <= c <= 'f' then c as int - 'a' as int + 10
    else if 'A' <= c <= 'F' then c as int - 'A' as int + 10
    else -1
  }

  function HexNumber(s: string, n: nat): Option<nat> {
    if s == "" then Some(n)
    else if HexDigit(s[0]) < 0 then None
    else HexNumber(s[1..], 16 * n + HexDigit(s[0]))
  }

  /** A character by its number, if it is a Unicode scalar value. */
  function Scalar(n: Option<nat>): Option<char> {
    match n
    case None => None
    case Some(k) => if k < 0xD800 || (0xE000 <= k < 0x11_0000) then Some(k as char) else None
  }

  /** The escape of strconv.Unquote behind a backslash: the character and how many
      characters of s it takes up.  Numbered escapes are read up to ASCII for \x and
      octal, and as scalar values for \u and \U. */
  function Escape(s: string): (r: Option<(char, nat)>)
    ensures r.Some? ==> 0 < r.value.1 <= |s|
  {
    if s == "" then None
    else
      var c := s[0];
      if c == 'a' then Some(('\U{0007}', 1)) else if c == 'b' then Some(('\U{0008}', 1)) else if c == 'f' then Some(('\U{000C}', 1))
      else if c == 'n' then Some(('\n', 1)) else if c == 'r' then Some(('\r', 1)) else if c == 't' then Some(('\t', 1))
      else if c == 'v' then Some(('\U{000B}', 1)) else if c == '\\' || c == '"' then Some((c, 1))
      else if c == 'x' && |s| >= 3 then Numbered(HexNumber(s[1..3], 0), 128, 3)
      else if c == 'u' && |s| >= 5 then Numbered(HexNumber(s[1..5], 0), 0x11_0000, 5)
      else if c == 'U' && |s| >= 9 then Numbered(HexNumber(s[1..9], 0), 0x11_0000, 9)
      else if |s| >= 3 && '0' <= c <= '1' && '0' <= s[1] <= '7' && '0' <= s[2] <= '7' then
        Numbered(Some(64 * HexDigit(c) + 8 * HexDigit(s[1]) + HexDigit(s[2])), 128, 3)
      else None
  }

  function Numbered(n: Option<nat>, limit: nat, length: nat): (r: Option<(char, nat)>)
    ensures r.Some? ==> r.value.1 == length
  {
    if n.Some? && n.value < limit && Scalar(n).Some? then Some((Scalar(n).value, length)) else None
  }

  /** strconv.Unquote on the text between double quotes. */
  function Unquote(s: string): Result<string, DotenvError>
    decreases |s|
  {
    if s == "" then Ok("")
    else if s[0] == '\n' || s[0] == '"' then Err(BadQuoting)
    else if s[0] == '\\' then
      match Escape(s[1..])
      case None => Err(BadQuoting)
      case Some(r) =>
        var rest :- Unquote(s[1 + r.1..]);
        Ok([r.0] + rest)
    else
      var rest :- Unquote(s[1..]);
      Ok([s[0]] + rest)
  }

  predicate MayTrail(rest: string) {
    var remainder := TrimSpace(rest);
    remainder == "" || remainder[0] == '#'
  }

  /** Where the closing quote is in s, which follows the opening one; or -1. */
  function ClosingQuote(s: string, escaped: bool): (n: int)
    ensures -1 <= n < |s|
  {
    if s == "" then -1
    else if !escaped && s[0] == '"' then 0
    else
      var n := ClosingQuote(s[1..], !escaped && s[0] == '\\');
      if n < 0 then -1 else n + 1
  }

  /** parseDoubleQuotedEnvironmentValue */
  function DoubleQuoted(value: string): Result<string, DotenvError>
    requires value != ""
  {
    var n := ClosingQuote(value[1..], false);
    if n < 0 then Err(Unterminated)
    else if !MayTrail(value[n + 2..]) then Err(TrailingContent)
    else Unquote(value[1..n + 1])
  }

  function FirstIndex(s: string, c: char): (n: int)
    ensures -1 <= n < |s|
  {
    if s == "" then -1
    else if s[0] == c then 0
    else
      var n := FirstIndex(s[1..], c);
      if n < 0 then -1 else n + 1
  }

  /** parseSingleQuotedEnvironmentValue */
  function SingleQuotedValue(value: string): Result<string, DotenvError>
    requires value != ""
  {
    var n := FirstIndex(value[1..], '\'');
    if n < 0 then Err(Unterminated)
    else if !MayTrail(value[n + 2..]) then Err(TrailingContent)
    else Ok(value[1..n + 1])
  }

  /** unicode.IsSpace on the last byte of the UTF-8 encoding of c. */
  predicate EndsInSpaceByte(c: char) {
    if c as int < 128 then IsSpace(c) else c as int % 64 == 0x05 || c as int % 64 == 0x20
  }

  /** The comment that starts at or after i, or the length of value. */
  function CommentStart(value: string, i: nat): (n: nat)
    requires i <= |value|
    ensures i <= n <= |value|
    decreases |value| - i
  {
    if i == |value| then i
    else if value[i] == '#' && (i == 0 || EndsInSpaceByte(value[i - 1])) then i
    else CommentStart(value, i + 1)
  }

  /** stripEnvironmentInlineComment */
  function StripComment(value: string): string {
    TrimSpace(value[..CommentStart(value, 0)])
  }

  /** parseEnvironmentVariableValue */
  function ParseValue(raw: string): Result<string, DotenvError> {
    var trimmed := TrimSpace(raw);
    if trimmed == "" then Ok("")
    else if trimmed[0] == '"' then DoubleQuoted(trimmed)
    else if trimmed[0] == '\'' then SingleQuotedValue(trimmed)
    else Ok(StripComment(trimmed))
  }

  // ----- the loops -----

  method ParseDoubleQuoted(value: string) returns (r: Result<string, DotenvError>)
    requires value != ""
    ensures r == DoubleQuoted(value)
  {
    var escaped := false;
    var index := 1;
    while index < |value|
      invariant 1 <= index <= |value|
      invariant var n := ClosingQuote(value[index..], escaped);
        ClosingQuote(value[1..], false) == if n < 0 then -1 else index - 1 + n
    {
      var current := value[index];
      assert value[index..][1..] == value[index + 1..];
      if !escaped && current == '\\' {
        escaped := true;
        index := index + 1;
        continue;
      }
      if !escaped && current == '"' {
        var remainder := TrimSpace(value[index + 1..]);
        if remainder != "" && remainder[0] != '#' { return Err(TrailingContent); }
        return Unquote(value[1..index]);
      }
      escaped := false;
      index := index + 1;
    }
    return Err(Unterminated);
  }

  method ParseSingleQuoted(value: string) returns (r: Result<string, DotenvError>)
    requires value != ""
    ensures r == SingleQuotedValue(value)
  {
    var index := 1;
    while index < |value|
      invariant 1 <= index <= |value|
      invariant var n := FirstIndex(value[index..], '\'');
        FirstIndex(value[1..], '\'') == if n < 0 then -1 else index - 1 + n
    {
      assert value[index..][1..] == value[index + 1..];
      if value[index] == '\'' {
        var remainder := TrimSpace(value[index + 1..]);
        if remainder != "" && remainder[0] != '#' { return Err(TrailingContent); }
        return Ok(value[1..index]);
      }
      index := index + 1;
    }
    return Err(Unterminated);
  }

  method StripInlineComment(value: string) returns (r: string)
    ensures r == StripComment(value)
  {
    var index := 0;
    while index < |value|
      invariant index <= |value| && CommentStart(value, 0) == CommentStart(value, index)
    {
      if value[index] == '#' {
        if index == 0 {
          assert value[..0] == "";
          return "";
        }
        if EndsInSpaceByte(value[index - 1]) { return TrimSpace(value[..index]); }
      }
      index := index + 1;
    }
    assert value[..index] == value;
    return TrimSpace(value);
  }

  // ----- the round trip -----

  lemma {:induction false} EscapeClosed(value: string, r: string)
    ensures ClosingQuote(EscapeAll(value) + "\"" + r, false) == |EscapeAll(value)|
  {
    var s := EscapeAll(value) + "\"" + r;
    if value != "" {
      var c, rest := value[0], EscapeAll(value[1..]);
      EscapeClosed(value[1..], r);
      assert s == EscapeChar(c) + (rest + "\"" + r);
      var t := rest + "\"" + r;
      if |EscapeChar(c)| == 2 {
        assert s[0] == '\\' && s[1..][1..] == t;
        assert ClosingQuote(s[1..], true) == 1 + ClosingQuote(t, false);
      } else {
        assert s[1..] == t;
      }
    }
  }

  /** Unquoting undoes the escapes, except that of a dollar sign. */
  lemma {:induction false} UnquoteEscaped(value: string)
    ensures Unquote(EscapeAll(value)) == if '$' in value then Err(BadQuoting) else Ok(value)
  {
    hide Escape;
    if value != "" {
      var c, rest := value[0], value[1..];
      var s := EscapeAll(value);
      UnquoteEscaped(rest);
      if |EscapeChar(c)| == 2 {
        assert s[0] == '\\' && s[1..] == [EscapeChar(c)[1]] + EscapeAll(rest);
        EscapeBack(c, EscapeAll(rest));
        assert s[2..] == EscapeAll(rest);
      } else {
        assert s[0] == c && s[1..] == EscapeAll(rest);
      }
      assert [c] + rest == value;
    }
  }

  lemma EscapeBack(c: char, r: string)
    requires |EscapeChar(c)| == 2
    ensures Escape([EscapeChar(c)[1]] + r) == if c == '$' then None else Some((c, 1))
  {
  }

  lemma {:induction false} TrimWord(s: string)
    requires s != "" && !IsSpace(s[0]) && !IsSpace(s[|s| - 1])
    ensures TrimSpace(s) == s
  {
  }

  lemma {:induction false} NoComment(value: string, i: nat)
    requires i <= |value| && '#' !in value
    ensures CommentStart(value, i) == |value|
    decreases |value| - i
  {
    if i < |value| { NoComment(value, i + 1); }
  }

  /** Reading a written value returns it exactly when it has no dollar sign. */
  lemma RenderParse(value: string, letter: Classifier)
    requires Classifies(letter)
    ensures ParseValue(RenderValue(value, letter)) == Ok(value) <==> '$' !in value
  {
    hide TrimSpace, ClosingQuote, Unquote, EscapeAll;
    var t := RenderValue(value, letter);
    if value == "" || NeedsQuotes(value, letter) {
      assert t == "\"" + Six(value) + "\"";
      SixIsEscape(value);
      var e := EscapeAll(value);
      TrimWord(t);
      EscapeClosed(value, "");
      assert t[1..] == e + "\"" + "";
      assert t[1..|e| + 1] == e && t[|e| + 2..] == "";
      TrimNothing();
      UnquoteEscaped(value);
    } else {
      forall i | 0 <= i < |value|
        ensures !IsSpace(value[i]) && value[i] !in "#\"'$\\"
      {
        assert letter(value[i]) || value[i] in "_-./:@";
      }
      TrimWord(value);
      NoComment(value, 0);
      assert value[..|value|] == value;
    }
  }

  lemma TrimNothing()
    ensures TrimSpace("") == ""
  {
  }
}
