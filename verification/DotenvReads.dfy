/** What a dotenv value reads as, whatever stands around it. */
module DotenvReads {
  import opened Text
  import opened Dotenv
  import opened DotenvWriter
  import DL = DotenvLaws

  /** What may stand behind a quoted value: spaces and a comment. */
  ghost predicate Trails(tail: string) {
    exists gap, comment :: AllSpace(gap) && (comment == "" || comment[0] == '#') && tail == gap + comment
  }

  lemma Spaced(tail: string) returns (gap: string, rest: string)
    ensures tail == gap + rest && AllSpace(gap) && (rest == "" || !IsSpace(rest[0])) && TrimLeft(tail) == rest
  {
    hide IsSpace;
    gap, rest := "", tail;
    while rest != "" && IsSpace(rest[0])
      invariant tail == gap + rest && AllSpace(gap)
      decreases |rest|
    {
      gap, rest := gap + [rest[0]], rest[1..];
    }
    LeftSkips(gap, rest);
  }

  lemma TrailsHead(gap: string, rest: string)
    requires AllSpace(gap) && (rest == "" || !IsSpace(rest[0]))
    ensures Trails(gap + rest) <==> rest == "" || rest[0] == '#'
  {
    hide IsSpace;
    if Trails(gap + rest) {
      var gap', comment :| AllSpace(gap') && (comment == "" || comment[0] == '#') && gap + rest == gap' + comment;
      HashNoSpace();
      LeftSkips(gap, rest);
      LeftSkips(gap', comment);
    }
  }

  lemma HashNoSpace()
    ensures !IsSpace('#')
  {
  }

  /** The test on what follows a quote, after trailing spaces were trimmed. */
  lemma TrailsIs(tail: string)
    ensures MayTrail(TrimRight(tail)) <==> Trails(tail)
  {
    hide IsSpace, Trails;
    var gap, rest := Spaced(tail);
    TrailsHead(gap, rest);
    if rest == "" {
      assert gap + rest == gap;
      RightSpaces(tail);
      LeftAll(TrimRight(tail));
    } else {
      var h := gap + [rest[0]];
      assert tail == h + rest[1..];
      RightStops(h, rest[1..]);
      var t := [rest[0]] + TrimRight(rest[1..]);
      assert h + TrimRight(rest[1..]) == gap + t;
      LeftSkips(gap, t);
      assert TrimLeft(t) == t;
      RightStops([rest[0]], TrimRight(rest[1..]));
    }
  }

  lemma {:induction false} RightSpaces(s: string)
    requires AllSpace(s)
    ensures AllSpace(TrimRight(s))
  {
    hide IsSpace;
    if s != "" { RightSpaces(s[..|s| - 1]); }
  }

  /** A value that starts with a quote, with spaces before it. */
  lemma QuotedTrims(before: string, q: char, inner: string, tail: string)
    requires AllSpace(before) && !IsSpace(q)
    ensures TrimSpace(before + ([q] + inner + [q] + tail)) == [q] + inner + [q] + TrimRight(tail)
  {
    hide IsSpace;
    var v := [q] + inner + [q];
    LeftSkips(before, v + tail);
    assert TrimLeft(v + tail) == v + tail;
    RightStops(v, tail);
  }

  lemma {:induction false} FirstAfter(text: string, c: char, tail: string)
    requires c !in text
    ensures FirstIndex(text + [c] + tail, c) == |text|
  {
    if text == "" {
      assert text + [c] + tail == [c] + tail;
    } else {
      assert (text + [c] + tail)[1..] == text[1..] + [c] + tail;
      FirstAfter(text[1..], c, tail);
    }
  }

  /** In single quotes nothing is special: the text up to the next quote is the value,
      and only spaces and a comment may stand behind. */
  lemma SingleReads(before: string, text: string, tail: string)
    requires AllSpace(before) && '\'' !in text
    ensures ParseValue(before + ("'" + text + "'" + tail)) == if Trails(tail) then Ok(text) else Err(TrailingContent)
  {
    hide IsSpace, Trails, TrimSpace, TrimRight, MayTrail;
    QuoteNoSpace();
    QuotedTrims(before, '\'', text, tail);
    TrailsIs(tail);
    var t := TrimRight(tail);
    var v := "'" + text + "'" + t;
    assert v[1..] == text + "'" + t;
    FirstAfter(text, '\'', t);
    assert v[|text| + 2..] == t && v[1..|text| + 1] == text;
  }

  lemma QuoteNoSpace()
    ensures !IsSpace('\'') && !IsSpace('"')
  {
  }

  /** The text holds no quote that no backslash escapes, and does not end in an open
      escape. */
  predicate Unclosed(s: string)
    decreases |s|
  {
    s == "" || (if s[0] == '\\' then |s| > 1 && Unclosed(s[2..]) else s[0] != '"' && Unclosed(s[1..]))
  }

  lemma {:induction false} ClosesAfter(text: string, tail: string)
    requires Unclosed(text)
    ensures ClosingQuote(text + "\"" + tail, false) == |text|
    decreases |text|
  {
    var s := text + "\"" + tail;
    if text == "" {
      assert s == "\"" + tail;
    } else if text[0] == '\\' {
      assert s[1..][1..] == text[2..] + "\"" + tail;
      ClosesAfter(text[2..], tail);
      assert ClosingQuote(s[1..], true) == 1 + ClosingQuote(s[1..][1..], false);
    } else {
      assert s[1..] == text[1..] + "\"" + tail;
      ClosesAfter(text[1..], tail);
    }
  }

  /** In double quotes the text up to the first quote that is not escaped is decoded. */
  lemma DoubleReads(before: string, text: string, tail: string)
    requires AllSpace(before) && Unclosed(text)
    ensures ParseValue(before + ("\"" + text + "\"" + tail)) == if Trails(tail) then Unquote(text) else Err(TrailingContent)
  {
    hide IsSpace, Trails, TrimSpace, TrimRight, MayTrail, Unquote, Unclosed;
    QuoteNoSpace();
    QuotedTrims(before, '"', text, tail);
    TrailsIs(tail);
    var t := TrimRight(tail);
    var v := "\"" + text + "\"" + t;
    assert v[1..] == text + "\"" + t;
    ClosesAfter(text, t);
    assert v[|text| + 2..] == t && v[1..|text| + 1] == text;
  }

  /** No sign in the text starts a comment: none stands first or behind a blank. */
  predicate NoComment(text: string) {
    forall i :: 0 <= i < |text| && text[i] == '#' ==> i > 0 && !EndsInSpaceByte(text[i - 1])
  }

  lemma {:induction false} CommentAt(text: string, tail: string, i: nat)
    requires i <= |text| && NoComment(text) && (tail != "" ==> tail[0] == '#' && (text == "" || EndsInSpaceByte(text[|text| - 1])))
    ensures CommentStart(text + tail, i) == |text|
    decreases |text| - i
  {
    hide EndsInSpaceByte;
    var s := text + tail;
    if i < |text| {
      assert s[i] == text[i] && (i > 0 ==> s[i - 1] == text[i - 1]);
      CommentAt(text, tail, i + 1);
    } else if tail != "" {
      assert s[i] == tail[0] && (i > 0 ==> s[i - 1] == text[i - 1]);
    } else {
      assert s == text;
    }
  }

  /** Without quotes the value is what stands before the comment, without the spaces
      around it. */
  lemma PlainReads(before: string, text: string, blank: char, gap: string, comment: string)
    requires AllSpace(before) && (blank == ' ' || blank == '\t') && AllSpace(gap)
    requires text != "" && !IsSpace(text[0]) && !IsSpace(text[|text| - 1]) && text[0] != '"' && text[0] != '\'' && NoComment(text)
    requires comment == "" || comment[0] == '#'
    ensures ParseValue(before + (text + gap)) == Ok(text)
    ensures ParseValue(before + (text + gap + [blank] + comment)) == Ok(text)
  {
    hide IsSpace, TrimSpace, NoComment, EndsInSpaceByte;
    TrimmedIs(before, text, gap);
    assert before + text + gap == before + (text + gap);
    BareReads(before + (text + gap), text);
    var t, gap' := text + gap + [blank], gap + [blank];
    BlankSpace(blank);
    assert t == text + gap';
    TrimmedIs(before, text, gap');
    assert before + text + gap' == before + (t + "");
    if comment == "" {
      assert t + comment == t + "";
      BareReads(before + (t + comment), text);
    } else {
      CommentedReads(before, text, gap', comment);
    }
  }

  lemma BlankSpace(blank: char)
    requires blank == ' ' || blank == '\t'
    ensures IsSpace(blank) && EndsInSpaceByte(blank)
  {
  }

  lemma BareReads(raw: string, text: string)
    requires TrimSpace(raw) == text && text != "" && text[0] != '"' && text[0] != '\'' && !IsSpace(text[0]) && !IsSpace(text[|text| - 1]) && NoComment(text)
    ensures ParseValue(raw) == Ok(text)
  {
    hide IsSpace, TrimSpace, NoComment;
    CommentAt(text, "", 0);
    assert text + "" == text && text[..|text|] == text;
    TrimmedIs("", text, "");
    assert "" + text + "" == text;
  }

  lemma CommentedReads(before: string, text: string, gap: string, comment: string)
    requires AllSpace(before) && AllSpace(gap) && gap != "" && EndsInSpaceByte(gap[|gap| - 1])
    requires text != "" && !IsSpace(text[0]) && !IsSpace(text[|text| - 1]) && text[0] != '"' && text[0] != '\'' && NoComment(text)
    requires comment != "" && comment[0] == '#'
    ensures ParseValue(before + (text + gap + comment)) == Ok(text)
  {
    hide IsSpace, EndsInSpaceByte;
    HashNoSpace();
    var t := text + gap;
    var h := t + ['#'];
    var tail := ['#'] + TrimRight(comment[1..]);
    assert t + comment == h + comment[1..];
    LeftSkips(before, t + comment);
    assert TrimLeft(t + comment) == t + comment;
    RightStops(h, comment[1..]);
    assert h + TrimRight(comment[1..]) == t + tail;
    GapNoComment(text, gap);
    CommentAt(t, tail, 0);
    assert (t + tail)[..|t|] == t;
    TrimmedIs("", text, gap);
    assert "" + text + gap == t;
  }

  lemma GapNoComment(text: string, gap: string)
    requires NoComment(text) && AllSpace(gap)
    ensures NoComment(text + gap)
  {
    hide EndsInSpaceByte, IsSpace;
    HashNoSpace();
    var s := text + gap;
    assert forall k :: 0 <= k < |gap| ==> IsSpace(gap[k]);
    assert forall i :: |text| <= i < |s| ==> s[i] == gap[i - |text|] != '#';
    assert forall i :: 0 <= i < |text| ==> s[i] == text[i];
  }

  // ----- escapes -----

  /** The digits of a number in base 16, as many as are asked for. */
  function Hex(n: nat, digits: nat): string {
    if digits == 0 then "" else Hex(n / 16, digits - 1) + ["0123456789abcdef"[n % 16]]
  }

  /** The same digits in upper case. */
  function UpperHex(n: nat, digits: nat): string {
    if digits == 0 then "" else UpperHex(n / 16, digits - 1) + ["0123456789ABCDEF"[n % 16]]
  }

  lemma HexDigitIs(c: char, k: nat)
    requires k < 16 && ("0123456789abcdef"[k] == c || "0123456789ABCDEF"[k] == c)
    ensures HexDigit(c) == k
  {
  }

  lemma {:induction false} HexSnoc(s: string, c: char, n: nat)
    requires HexDigit(c) >= 0 && HexNumber(s, n).Some?
    ensures HexNumber(s + [c], n) == Some(16 * HexNumber(s, n).value + HexDigit(c))
  {
    hide HexDigit;
    if s == "" {
      assert s + [c] == [c] && [c][1..] == "";
    } else {
      assert (s + [c])[1..] == s[1..] + [c];
      HexSnoc(s[1..], c, 16 * n + HexDigit(s[0]));
    }
  }

  lemma {:induction false} HexReads(n: nat, digits: nat)
    requires n < Sixteens(digits)
    ensures HexNumber(Hex(n, digits), 0) == Some(n) && HexNumber(UpperHex(n, digits), 0) == Some(n)
    ensures |Hex(n, digits)| == digits == |UpperHex(n, digits)|
  {
    if digits > 0 {
      HexReads(n / 16, digits - 1);
      HexDigitIs("0123456789abcdef"[n % 16], n % 16);
      HexDigitIs("0123456789ABCDEF"[n % 16], n % 16);
      HexSnoc(Hex(n / 16, digits - 1), "0123456789abcdef"[n % 16], 0);
      HexSnoc(UpperHex(n / 16, digits - 1), "0123456789ABCDEF"[n % 16], 0);
    }
  }

  function Sixteens(k: nat): nat { if k == 0 then 1 else 16 * Sixteens(k - 1) }

  /** A character by its number: two digits up to ASCII, four or eight up to the end of
      Unicode, in either case, but no surrogates. */
  lemma NumberedReads(n: nat, rest: string)
    ensures n < 128 ==> ReadsHex('x', n, 2, rest, Some((n as char, 3)))
    ensures 128 <= n < 0x100 ==> ReadsHex('x', n, 2, rest, None)
    ensures n < 0x1_0000 ==> ReadsHex('u', n, 4, rest, if n < 0xD800 || 0xE000 <= n then Some((n as char, 5)) else None)
    ensures n < 0x1_0000_0000 ==> ReadsHex('U', n, 8, rest, if n < 0xD800 || 0xE000 <= n < 0x11_0000 then Some((n as char, 9)) else None)
  {
    hide Hex, UpperHex, HexNumber;
    if n < 0x100 {
      HexReads(n, 2);
      TwoDigits(Hex(n, 2), rest);
      TwoDigits(UpperHex(n, 2), rest);
    }
    if n < 0x1_0000 {
      HexReads(n, 4);
      FourDigits(Hex(n, 4), rest);
      FourDigits(UpperHex(n, 4), rest);
    }
    if n < 0x1_0000_0000 {
      HexReads(n, 8);
      EightDigits(Hex(n, 8), rest);
      EightDigits(UpperHex(n, 8), rest);
    }
  }

  /** Behind a backslash, the letter and the digits of n are read so. */
  predicate ReadsHex(c: char, n: nat, digits: nat, rest: string, r: Option<(char, nat)>) {
    Escape([c] + (Hex(n, digits) + rest)) == r == Escape([c] + (UpperHex(n, digits) + rest))
  }

  lemma TwoDigits(s: string, rest: string)
    requires |s| == 2
    ensures Escape(['x'] + (s + rest)) == Numbered(HexNumber(s, 0), 128, 3)
  {
    hide HexNumber;
    assert (['x'] + (s + rest))[1..3] == s;
  }

  lemma FourDigits(s: string, rest: string)
    requires |s| == 4
    ensures Escape(['u'] + (s + rest)) == Numbered(HexNumber(s, 0), 0x11_0000, 5)
  {
    hide HexNumber;
    assert (['u'] + (s + rest))[1..5] == s;
  }

  lemma EightDigits(s: string, rest: string)
    requires |s| == 8
    ensures Escape(['U'] + (s + rest)) == Numbered(HexNumber(s, 0), 0x11_0000, 9)
  {
    hide HexNumber;
    assert (['U'] + (s + rest))[1..9] == s;
  }

  /** Three octal digits, up to ASCII. */
  lemma OctalReads(a: nat, b: nat, c: nat, rest: string)
    requires a < 4 && b < 8 && c < 8
    ensures Escape(["01234567"[a], "01234567"[b], "01234567"[c]] + rest) == if a < 2 then Some(((64 * a + 8 * b + c) as char, 3)) else None
  {
    var digits := "01234567";
    assert forall k :: 0 <= k < 8 ==> digits[k] as int == k + '0' as int;
  }

  /** The escapes with a letter or a sign; there are no others. */
  lemma LettersRead(c: char, rest: string)
    ensures c in "abfnrtv\\\"" ==> Escape([c] + rest) == Some((match c
      case 'a' => '\U{0007}' case 'b' => '\U{0008}' case 'f' => '\U{000C}' case 'n' => '\n' case 'r' => '\r' case 't' => '\t'
      case 'v' => '\U{000B}' case _ => c, 1))
    ensures c !in "abfnrtvxuU01\\\"" ==> Escape([c] + rest) == None
  {
  }

  /** In double quotes every other character stands for itself, but line feeds and
      quotes are refused. */
  lemma CharactersRead(c: char, rest: string)
    ensures c == '\n' || c == '"' ==> Unquote([c] + rest) == Err(BadQuoting)
    ensures c != '\n' && c != '"' && c != '\\' ==> Unquote([c] + rest) == match Unquote(rest) case Err(e) => Err(e) case Ok(s) => Ok([c] + s)
    ensures c == '\\' && Escape(rest).None? ==> Unquote([c] + rest) == Err(BadQuoting)
    ensures c == '\\' && Escape(rest).Some? ==>
      var (d, n) := Escape(rest).value;
      Unquote([c] + rest) == match Unquote(rest[n..]) case Err(e) => Err(e) case Ok(s) => Ok([d] + s)
  {
    assert ([c] + rest)[1..] == rest;
    if c == '\\' && Escape(rest).Some? { assert ([c] + rest)[1 + Escape(rest).value.1..] == rest[Escape(rest).value.1..]; }
  }

  /** Beyond ASCII the last byte of a character in UTF-8 counts, taken as a character. */
  lemma ByteSpaces(c: char)
    ensures EndsInSpaceByte(c) <==> if c < '\U{0080}' then IsSpace(c) else IsSpace((0x80 + c as int % 64) as char)
  {
  }

  // ----- lines -----

  predicate IsBareName(name: string) {
    name != "" && !IsSpace(name[0]) && !IsSpace(name[|name| - 1]) && '=' !in name && name[0] != '#'
  }

  /** An assignment, perhaps behind a comment sign and the word export, with spaces
      anywhere between. */
  lemma LineReads(lead: string, commented: bool, gap: string, exported: bool, more: string, name: string, trail: string, value: string)
    requires AllSpace(lead) && AllSpace(gap) && AllSpace(more) && AllSpace(trail) && IsBareName(name) && !("export " <= name + trail)
    ensures var plain := name + trail + "=" + value;
      var full := if exported then "export " + (more + plain) else plain;
      ParseLine(lead + if commented then "#" + (gap + full) else full) == Some((name, commented))
  {
    hide IsSpace, TrimSpace, FirstIndex, TrimLeft;
    var plain := name + trail + "=" + value;
    var full := if exported then "export " + (more + plain) else plain;
    var t := if commented then "#" + (gap + full) else full;
    BareStarts(name, trail, value);
    ExportNoSpace();
    TrimsTo(lead, t);
    if commented {
      assert t[1..] == gap + full;
      TrimsTo(gap, full);
    }
    NotExported(name, trail, value);
    if exported {
      assert full[|"export "|..] == more + plain;
      TrimsTo(more, plain);
    }
    NameFound(name, trail, value);
    assert plain[..|name + trail|] == name + trail;
  }

  lemma TrimsTo(before: string, s: string)
    requires AllSpace(before) && s != "" && !IsSpace(s[0])
    ensures TrimLeft(before + s) == s
  {
    hide IsSpace;
    LeftSkips(before, s);
  }

  lemma BareStarts(name: string, trail: string, value: string)
    requires IsBareName(name)
    ensures var s := name + trail + "=" + value; s != "" && s[0] != '#' && !IsSpace(s[0])
    ensures !IsSpace('#')
  {
  }

  lemma ExportNoSpace()
    ensures !IsSpace('e') && !IsSpace('=')
  {
  }

  lemma NotExported(name: string, trail: string, value: string)
    requires !("export " <= name + trail)
    ensures !("export " <= name + trail + "=" + value)
  {
    var h := name + trail;
    assert '=' !in "export ";
    if |h| >= 7 { assert (h + "=" + value)[..7] == h[..7]; } else { assert (h + "=" + value)[|h|] == '='; }
  }

  lemma NameFound(name: string, trail: string, value: string)
    requires AllSpace(trail) && IsBareName(name)
    ensures FirstIndex(name + trail + "=" + value, '=') == |name + trail| && TrimSpace(name + trail) == name
  {
    hide IsSpace;
    ExportNoSpace();
    var s := name + trail + "=" + value;
    assert forall i :: 0 <= i < |trail| ==> trail[i] != '=';
    DL.FirstIndexIs(s, '=', |name + trail|);
    TrimmedIs("", name, trail);
    assert "" + name + trail == name + trail;
  }
}
