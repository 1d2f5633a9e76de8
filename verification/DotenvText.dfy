/** upsertDotenvAssignments on text: exactly when a second run changes nothing. */
module DotenvText {
  import opened Text
  import opened Dotenv
  import opened DotenvWriter
  import opened DotenvLaws
  import opened ManifestChecker

  predicate EndsInReturn(l: string) { l != "" && l[|l| - 1] == '\r' }

  function TrimReturn(l: string): string {
    if EndsInReturn(l) then l[..|l| - 1] else l
  }

  function TrimAll(lines: seq<string>): (r: seq<string>)
    ensures |r| == |lines| && forall i :: 0 <= i < |lines| ==> r[i] == TrimReturn(lines[i])
  {
    seq(|lines|, i requires 0 <= i < |lines| => TrimReturn(lines[i]))
  }

  predicate Unbroken(lines: seq<string>) {
    forall i :: 0 <= i < |lines| ==> '\n' !in lines[i]
  }

  // ----- lines and text -----

  lemma {:induction false} SplitUnbroken(s: string)
    ensures Unbroken(SplitOn(s, '\n'))
    ensures SplitOn(s, '\n') == [""] ==> s == ""
  {
    if s != "" { SplitUnbroken(s[1..]); }
  }

  lemma {:induction false} SplitLine(l: string, rest: string)
    requires '\n' !in l
    ensures SplitOn(l, '\n') == [l]
    ensures SplitOn(l + "\n" + rest, '\n') == [l] + SplitOn(rest, '\n')
  {
    var s := l + "\n" + rest;
    if l == "" {
      assert s[1..] == rest && s[0] == '\n';
    } else {
      assert s[1..] == l[1..] + "\n" + rest;
      SplitLine(l[1..], rest);
      assert [l[0]] + l[1..] == l;
    }
  }

  lemma SplitJoin(lines: seq<string>)
    requires lines != [] && Unbroken(lines)
    ensures SplitOn(Join(lines, "\n"), '\n') == lines
  {
    JoinBack(lines, '\n');
  }

  /** A character that does not start a CRLF. */
  lemma CrlfOther(s: string)
    requires s != "" && !("\r\n" <= s)
    ensures FromCrlf(s) == [s[0]] + FromCrlf(s[1..])
  {
  }

  lemma CrlfHere(rest: string)
    ensures FromCrlf("\r\n" + rest) == "\n" + FromCrlf(rest) && FromCrlf("\n" + rest) == "\n" + FromCrlf(rest)
  {
  }

  lemma ReturnCons(l: string)
    requires l != "" && l != "\r"
    ensures TrimReturn(l) == [l[0]] + TrimReturn(l[1..])
  {
  }

  lemma {:induction false} FromCrlfLine(l: string, rest: string)
    requires '\n' !in l
    ensures FromCrlf(l + "\n" + rest) == TrimReturn(l) + "\n" + FromCrlf(rest)
  {
    hide FromCrlf, TrimReturn;
    var s := l + "\n" + rest;
    if l == "" {
      CrlfHere(rest);
      assert s == "\n" + rest && TrimReturn("") == "" by { NoReturnAlone(); }
      assert "" + "\n" + FromCrlf(rest) == "\n" + FromCrlf(rest);
    } else if l == "\r" {
      CrlfHere(rest);
      NoReturnAlone();
      assert s == "\r\n" + rest && "" + "\n" + FromCrlf(rest) == "\n" + FromCrlf(rest);
    } else {
      assert s[0] == l[0] && s[1..] == l[1..] + "\n" + rest;
      NoCrlfHere(l, rest);
      CrlfOther(s);
      FromCrlfLine(l[1..], rest);
      ReturnCons(l);
      assert [l[0]] + (TrimReturn(l[1..]) + "\n" + FromCrlf(rest)) == [l[0]] + TrimReturn(l[1..]) + "\n" + FromCrlf(rest);
    }
  }

  lemma NoReturnAlone()
    ensures TrimReturn("") == "" && TrimReturn("\r") == ""
  {
  }

  lemma NoCrlfHere(l: string, rest: string)
    requires '\n' !in l && l != "" && l != "\r"
    ensures !("\r\n" <= l + "\n" + rest)
  {
    var s := l + "\n" + rest;
    if |l| == 1 { assert s[0] != '\r'; } else { assert s[1] == l[1] != '\n'; }
  }

  lemma {:induction false} FromCrlfLines(lines: seq<string>)
    requires lines != [] && Unbroken(lines)
    ensures FromCrlf(TextOf(lines)) == TextOf(TrimAll(lines))
    decreases |lines|
  {
    var l := lines[0];
    if |lines| == 1 {
      FromCrlfLine(l, "");
      assert l + "\n" + "" == TextOf(lines);
    } else {
      var rest := lines[1..];
      FromCrlfLine(l, TextOf(rest));
      assert l + "\n" + TextOf(rest) == TextOf(lines);
      FromCrlfLines(rest);
      assert TrimAll(lines)[1..] == TrimAll(rest);
      assert TrimReturn(l) + "\n" + TextOf(TrimAll(rest)) == TextOf(TrimAll(lines));
    }
  }

  lemma {:induction false} JoinEmpty(lines: seq<string>)
    requires lines != []
    ensures Join(lines, "\n") == "" <==> lines == [""]
  {
  }

  /** Reading the lines of a written text drops one carriage return per line. */
  lemma LinesBack(lines: seq<string>)
    requires Unbroken(lines)
    ensures LinesOf(TextOf(lines)) == if lines == [] || TrimAll(lines) == [""] then [] else TrimAll(lines)
  {
    hide FromCrlf, SplitOn, Join;
    if lines == [] {
      NoLines();
    } else {
      var v := TrimAll(lines);
      FromCrlfLines(lines);
      assert TrimBreak(TextOf(v)) == Join(v, "\n");
      JoinEmpty(v);
      assert Unbroken(v) by {
        forall i | 0 <= i < |v|
          ensures '\n' !in v[i]
        {
          assert '\n' !in lines[i];
        }
      }
      SplitJoin(v);
    }
  }

  lemma NoLines()
    ensures LinesOf(TextOf([])) == []
  {
  }

  lemma LinesUnbroken(contents: string)
    ensures Unbroken(LinesOf(contents)) && LinesOf(contents) != [""]
  {
    hide FromCrlf;
    SplitUnbroken(TrimBreak(FromCrlf(contents)));
  }

  // ----- the lines of the result -----

  /** Line i is kept although it ends in a carriage return. */
  predicate KeepsReturn(lines: seq<string>, i: nat, values: map<string, string>)
    requires i < |lines|
  {
    EndsInReturn(lines[i]) && !Rewritten(lines, i, values)
  }

  lemma ResultLine(lines: seq<string>, as': seq<Assignment>, letter: Classifier, j: nat)
    requires ValidAssignments(as') && Classifies(letter) && Unbroken(lines) && j < |UpsertLines(lines, as', letter)|
    ensures var u := UpsertLines(lines, as', letter);
      && '\n' !in u[j]
      && (EndsInReturn(u[j]) <==> j < |lines| && KeepsReturn(lines, j, ValuesOf(as')))
  {
    hide ParseLine, RenderLine, ValidVariable, Missing, UpsertLines;
    var u, values := UpsertLines(lines, as', letter), ValuesOf(as');
    UpsertAt(lines, as', letter, j);
    if j < |lines| {
      if Rewritten(lines, j, values) {
        RewrittenParsed(lines, j, values);
        RewrittenIs(lines, j, as', letter);
        var i := ValuesFrom(as', ParseLine(lines[j]).value.0);
        RenderedText(as'[i].name, as'[i].value, letter);
      }
    } else if u[j] != "" {
      var k := MissingFrom(as', lines, letter, j - (|u| - |Missing(as', lines, letter)|));
      RenderedText(as'[k].name, as'[k].value, letter);
    }
  }

  lemma ResultLines(lines: seq<string>, as': seq<Assignment>, letter: Classifier)
    requires ValidAssignments(as') && Classifies(letter) && Unbroken(lines) && lines != [""]
    ensures var u := UpsertLines(lines, as', letter);
      && Unbroken(u) && u != [""]
      && forall j :: 0 <= j < |u| ==> (EndsInReturn(u[j]) <==> j < |lines| && KeepsReturn(lines, j, ValuesOf(as')))
  {
    hide ParseLine, RenderLine, ValidVariable, Missing, UpsertLines, KeepsReturn;
    var u := UpsertLines(lines, as', letter);
    forall j | 0 <= j < |u|
      ensures '\n' !in u[j] && (EndsInReturn(u[j]) <==> j < |lines| && KeepsReturn(lines, j, ValuesOf(as')))
    {
      ResultLine(lines, as', letter, j);
    }
    if u == [""] { SoleLine(lines, as', letter); }
  }

  lemma SoleLine(lines: seq<string>, as': seq<Assignment>, letter: Classifier)
    requires ValidAssignments(as') && Classifies(letter) && UpsertLines(lines, as', letter) == [""]
    ensures lines == [""]
  {
    hide ParseLine, RenderLine, ValidVariable, Missing, UpsertLines;
    UpsertAt(lines, as', letter, 0);
    UpsertLength(lines, as', letter);
    var u := UpsertLines(lines, as', letter);
    if |lines| == 1 {
      if Rewritten(lines, 0, ValuesOf(as')) {
        RewrittenParsed(lines, 0, ValuesOf(as'));
        RewrittenIs(lines, 0, as', letter);
        var i := ValuesFrom(as', ParseLine(lines[0]).value.0);
        RenderedText(as'[i].name, as'[i].value, letter);
      }
    } else {
      NoBlankFirst(lines, as', letter);
      if |Missing(as', lines, letter)| > 0 {
        var k := MissingFrom(as', lines, letter, 0);
        RenderedText(as'[k].name, as'[k].value, letter);
      }
    }
  }

  lemma NoBlankFirst(lines: seq<string>, as': seq<Assignment>, letter: Classifier)
    requires lines == []
    ensures UpsertLines(lines, as', letter) == Missing(as', lines, letter)
  {
  }

  // ----- trimming a carriage return -----

  lemma {:induction false} FirstIndexSnoc(s: string, c: char, d: char)
    requires FirstIndex(s, c) >= 0
    ensures FirstIndex(s + [d], c) == FirstIndex(s, c)
  {
    if s[0] != c {
      assert (s + [d])[1..] == s[1..] + [d];
      FirstIndexSnoc(s[1..], c, d);
    }
  }

  /** A carriage return at the end of an assignment does not change what it assigns to. */
  lemma ParseReturn(l: string)
    requires ParseLine(l).Some?
    ensures ParseLine(l + "\r") == ParseLine(l)
  {
    hide TrimLeft, TrimSpace, FirstIndex;
    var t0 := TrimLeft(l);
    FirstIndexNothing();
    TrimNothingLeft();
    TrimLeftSnoc(l, '\r');
    var commented := t0 != "" && t0[0] == '#';
    var t1 := if commented then TrimLeft(t0[1..]) else t0;
    if commented {
      assert (t0 + "\r")[1..] == t0[1..] + "\r";
      TrimLeftSnoc(t0[1..], '\r');
    }
    ExportSnoc(t1);
    var t2 := if "export " <= t1 then TrimLeft(t1[|"export "|..]) else t1;
    if "export " <= t1 {
      assert (t1 + "\r")[|"export "|..] == t1[|"export "|..] + "\r";
      TrimLeftSnoc(t1[|"export "|..], '\r');
    }
    FirstIndexSnoc(t2, '=', '\r');
    assert (t2 + "\r")[..FirstIndex(t2, '=')] == t2[..FirstIndex(t2, '=')];
  }

  lemma FirstIndexNothing()
    ensures FirstIndex("", '=') == -1
  {
  }

  lemma TrimNothingLeft()
    ensures TrimLeft("") == ""
  {
  }

  lemma ExportSnoc(t: string)
    ensures "export " <= t + "\r" <==> "export " <= t
  {
    var e, s := "export ", t + "\r";
    assert |t| < 7 ==> s[|t|] == '\r' && e[|t|] != '\r';
  }

  lemma {:induction false} ShorterJoin(u: seq<string>, v: seq<string>)
    requires |u| == |v| && forall i :: 0 <= i < |u| ==> |v[i]| <= |u[i]|
    ensures |Join(v, "\n")| <= |Join(u, "\n")|
    ensures (exists i :: 0 <= i < |u| && |v[i]| < |u[i]|) ==> |Join(v, "\n")| < |Join(u, "\n")|
  {
    if |u| > 1 { ShorterJoin(u[1..], v[1..]); }
  }

  // ----- the theorem -----

  /** A line of a managed name carries its value, with or without the carriage return. */
  lemma CarriesTrimmed(lines: seq<string>, as': seq<Assignment>, letter: Classifier, k: nat, j: nat)
    requires ValidAssignments(as') && Classifies(letter) && k < |as'| && j < |UpsertLines(lines, as', letter)|
    requires ActiveLine(TrimReturn(UpsertLines(lines, as', letter)[j]), as'[k].name)
    ensures TrimReturn(UpsertLines(lines, as', letter)[j]) == RenderLine(as'[k].name, as'[k].value, letter)
  {
    hide ParseLine, RenderLine, ValidVariable, UpsertLines;
    var l := UpsertLines(lines, as', letter)[j];
    if EndsInReturn(l) {
      ParseReturn(TrimReturn(l));
      assert l == TrimReturn(l) + "\r";
    }
    UpsertCarries(lines, as', letter, k, j);
    RenderedText(as'[k].name, as'[k].value, letter);
  }

  /** The second run drops one carriage return per line, and nothing else. */
  lemma SecondPass(lines: seq<string>, as': seq<Assignment>, letter: Classifier)
    requires ValidAssignments(as') && Classifies(letter) && Unbroken(lines) && lines != [""]
    ensures var u := UpsertLines(lines, as', letter);
      u != [] ==> Upsert(TextOf(u), as', letter) == TextOf(TrimAll(u))
  {
    hide ParseLine, RenderLine, ValidVariable, Missing, UpsertLines, Join, Active, ActiveLine, Rewritten, Unbroken;
    var u := UpsertLines(lines, as', letter);
    var v := TrimAll(u);
    ResultLines(lines, as', letter);
    LinesBack(u);
    forall k, j | 0 <= k < |as'| && 0 <= j < |v| && ActiveLine(v[j], as'[k].name)
      ensures v[j] == RenderLine(as'[k].name, as'[k].value, letter)
    {
      CarriesTrimmed(lines, as', letter, k, j);
    }
    forall k | 0 <= k < |as'|
      ensures Active(v, as'[k].name)
    {
      ActiveKept(lines, as', letter, k);
    }
    if v == [""] {
      NoneActive(as');
      JoinEmptyLines();
    } else {
      UpsertSettled(v, as', letter);
    }
  }

  /** Where a kept line ends in a carriage return, the second run shortens the text. */
  lemma ReturnLost(lines: seq<string>, as': seq<Assignment>, letter: Classifier, i: nat)
    requires ValidAssignments(as') && Classifies(letter) && Unbroken(lines) && lines != [""]
    requires i < |lines| && KeepsReturn(lines, i, ValuesOf(as'))
    ensures var out := TextOf(UpsertLines(lines, as', letter)); |Upsert(out, as', letter)| < |out|
  {
    hide Upsert, UpsertLines, KeepsReturn, Join;
    var u := UpsertLines(lines, as', letter);
    UpsertLength(lines, as', letter);
    ResultLines(lines, as', letter);
    SecondPass(lines, as', letter);
    ShorterJoin(u, TrimAll(u));
    assert |TrimAll(u)[i]| < |u[i]|;
  }

  lemma ActiveKept(lines: seq<string>, as': seq<Assignment>, letter: Classifier, k: nat)
    requires ValidAssignments(as') && Classifies(letter) && k < |as'|
    ensures Active(TrimAll(UpsertLines(lines, as', letter)), as'[k].name)
  {
    hide ParseLine, RenderLine, ValidVariable, UpsertLines;
    var u := UpsertLines(lines, as', letter);
    UpsertActivates(lines, as', letter, k);
    var j :| 0 <= j < |u| && ActiveLine(u[j], as'[k].name);
    UpsertCarries(lines, as', letter, k, j);
    RenderedText(as'[k].name, as'[k].value, letter);
    assert TrimAll(u)[j] == u[j];
  }

  lemma NoneActive(as': seq<Assignment>)
    requires forall k :: 0 <= k < |as'| ==> Active([""], as'[k].name)
    ensures as' == []
  {
    if as' != [] {
      assert Active([""], as'[0].name);
      BlankAssigns(as'[0].name);
    }
  }

  lemma JoinEmptyLines()
    ensures Join([], "\n") == "" && Join([""], "\n") == "" && forall letter: Classifier :: UpsertLines([], [], letter) == []
  {
  }

  /** A second run changes nothing exactly when every line that ends in a carriage
      return, beyond the CRLF that ends it, is rewritten. */
  lemma UpsertIdempotentExactly(contents: string, as': seq<Assignment>, letter: Classifier)
    requires ValidAssignments(as') && Classifies(letter)
    ensures var lines := LinesOf(contents);
      Upsert(Upsert(contents, as', letter), as', letter) == Upsert(contents, as', letter) <==>
        forall i :: 0 <= i < |lines| ==> !KeepsReturn(lines, i, ValuesOf(as'))
  {
    hide ParseLine, RenderLine, ValidVariable, Missing, UpsertLines, KeepsReturn, LinesOf, Join;
    var lines := LinesOf(contents);
    LinesUnbroken(contents);
    var u := UpsertLines(lines, as', letter);
    ResultLines(lines, as', letter);
    UpsertLength(lines, as', letter);
    if i :| 0 <= i < |lines| && KeepsReturn(lines, i, ValuesOf(as')) {
      ReturnLost(lines, as', letter, i);
    } else {
      assert TrimAll(u) == u;
      LinesBack(u);
      LinesIdempotent(lines, as', letter);
    }
  }

  // ----- the dotenv action -----

  /** The dotenv branch of runFrameworkAction: the result uses CRLF if the file did. */
  function DotenvAction(contents: string, as': seq<Assignment>, letter: Classifier): string {
    var out := Upsert(contents, as', letter);
    if Index(contents, "\r\n") >= 0 then ToCrlf(out) else out
  }

  lemma {:induction false} CrlfBack(s: string)
    ensures FromCrlf(ToCrlf(s)) == s
    ensures s != "" ==> ToCrlf(s) != "" && ToCrlf(s)[0] != '\n'
  {
    if s != "" {
      CrlfBack(s[1..]);
      var t := ToCrlf(s);
      if s[0] == '\n' {
        assert t[2..] == ToCrlf(s[1..]);
      } else {
        assert t[1..] == ToCrlf(s[1..]);
        assert !("\r\n" <= t) by {
          if |s| > 1 { assert t[1] == ToCrlf(s[1..])[0]; } else { assert s[1..] == ""; }
        }
      }
    }
  }

  lemma {:induction false} CrlfShows(s: string)
    requires '\n' in s
    ensures Index(ToCrlf(s), "\r\n") >= 0
  {
    var t := ToCrlf(s);
    if s[0] == '\n' {
      assert t[..2] == "\r\n";
    } else {
      assert t[1..] == ToCrlf(s[1..]);
      CrlfShows(s[1..]);
    }
  }

  lemma {:induction false} CrlfShortens(s: string)
    ensures |FromCrlf(s)| <= |s|
    ensures Index(s, "\r\n") >= 0 ==> |FromCrlf(s)| < |s|
    decreases |s|
  {
    if s != "" {
      if "\r\n" <= s { CrlfShortens(s[2..]); } else { CrlfShortens(s[1..]); }
    }
  }

  /** Lines that are written and then get CRLF breaks are read back as they are. */
  lemma CrlfLines(lines: seq<string>)
    requires Unbroken(lines) && lines != [""]
    ensures LinesOf(ToCrlf(TextOf(lines))) == lines
  {
    hide FromCrlf, ToCrlf, SplitOn, Join;
    CrlfBack(TextOf(lines));
    assert TrimBreak(TextOf(lines)) == Join(lines, "\n");
    if lines == [] {
      JoinEmptyLines();
    } else {
      JoinEmpty(lines);
      SplitJoin(lines);
    }
  }

  function AddReturns(lines: seq<string>): (r: seq<string>)
    ensures |r| == |lines| && forall i :: 0 <= i < |lines| ==> r[i] == lines[i] + "\r"
  {
    seq(|lines|, i requires 0 <= i < |lines| => lines[i] + "\r")
  }

  lemma {:induction false} ToCrlfLine(l: string, rest: string)
    requires '\n' !in l
    ensures ToCrlf(l + "\n" + rest) == l + "\r" + "\n" + ToCrlf(rest)
  {
    var s := l + "\n" + rest;
    if l == "" {
      assert s[1..] == rest && s[0] == '\n';
    } else {
      assert s[0] == l[0] && s[1..] == l[1..] + "\n" + rest;
      ToCrlfLine(l[1..], rest);
    }
  }

  /** CRLF breaks are carriage returns at the ends of all lines. */
  lemma {:induction false} ToCrlfLines(lines: seq<string>)
    requires lines != [] && Unbroken(lines)
    ensures ToCrlf(TextOf(lines)) == TextOf(AddReturns(lines))
    decreases |lines|
  {
    hide ToCrlf;
    var l := lines[0];
    if |lines| == 1 {
      ToCrlfLine(l, "");
      assert l + "\n" + "" == TextOf(lines);
      NothingToCrlf();
    } else {
      var rest := lines[1..];
      ToCrlfLine(l, TextOf(rest));
      assert l + "\n" + TextOf(rest) == TextOf(lines);
      ToCrlfLines(rest);
      assert AddReturns(lines)[1..] == AddReturns(rest);
      assert l + "\r" + "\n" + TextOf(AddReturns(rest)) == TextOf(AddReturns(lines));
    }
  }

  lemma NothingToCrlf()
    ensures ToCrlf("") == ""
  {
  }

  /** Texts of the same length in lines are the same when their lines are. */
  lemma TextInjective(u: seq<string>, v: seq<string>)
    requires u != [] && v != [] && Unbroken(u) && Unbroken(v) && TextOf(u) == TextOf(v)
    ensures u == v
  {
    hide Join, SplitOn;
    var a, b := Join(u, "\n"), Join(v, "\n");
    assert a == TextOf(u)[..|TextOf(u)| - 1] && b == TextOf(v)[..|TextOf(v)| - 1];
    SplitJoin(u);
    SplitJoin(v);
  }

  lemma {:induction false} CrlfFound(s: string, i: nat)
    requires i + 1 < |s| && s[i] == '\r' && s[i + 1] == '\n'
    ensures Index(s, "\r\n") >= 0
  {
    if i == 0 {
      assert s[..2] == "\r\n";
    } else {
      CrlfFound(s[1..], i - 1);
    }
  }

  lemma {:induction false} LineEnd(lines: seq<string>, j: nat) returns (i: nat)
    requires j < |lines| && EndsInReturn(lines[j])
    ensures var s := TextOf(lines); i + 1 < |s| && s[i] == '\r' && s[i + 1] == '\n'
    decreases |lines|
  {
    var l, rest := lines[0], lines[1..];
    if rest == [] {
      i := |l| - 1;
    } else {
      assert TextOf(lines) == l + "\n" + TextOf(rest);
      if j == 0 {
        i := |l| - 1;
      } else {
        i := LineEnd(rest, j - 1);
        i := |l| + 1 + i;
      }
    }
  }

  /** A file without CRLF has a carriage return at the end of its last line only. */
  lemma {:induction false} ReturnLast(s: string, i: nat)
    requires i < |SplitOn(s, '\n')| - 1 && EndsInReturn(SplitOn(s, '\n')[i])
    ensures Index(s, "\r\n") >= 0
  {
    var rest := SplitOn(s[1..], '\n');
    if s[0] == '\n' {
      assert SplitOn(s, '\n')[i] == if i == 0 then "" else rest[i - 1];
      ReturnLast(s[1..], i - 1);
    } else if i > 0 || rest[0] != "" {
      assert i > 0 ==> SplitOn(s, '\n')[i] == rest[i];
      ReturnLast(s[1..], i);
    } else {
      assert s[0] == '\r' && s[1] == '\n';
      CrlfFound(s, 0);
    }
  }

  lemma {:induction false} NoCrlfSame(s: string)
    requires Index(s, "\r\n") < 0
    ensures FromCrlf(s) == s
  {
    if s != "" { NoCrlfSame(s[1..]); }
  }

  lemma CrlfInside(s: string)
    requires Index(TrimBreak(s), "\r\n") >= 0
    ensures Index(s, "\r\n") >= 0
  {
    hide Index;
    var t := TrimBreak(s);
    var n := Index(t, "\r\n");
    assert t[n] == t[n..n + 2][0] && t[n + 1] == t[n..n + 2][1];
    CrlfFound(s, n);
  }

  lemma OnlyLastReturns(contents: string, i: nat)
    requires Index(contents, "\r\n") < 0 && i < |LinesOf(contents)| && EndsInReturn(LinesOf(contents)[i])
    ensures i == |LinesOf(contents)| - 1
  {
    hide FromCrlf, Index, SplitOn, TrimBreak, EndsInReturn;
    NoCrlfSame(contents);
    var t := TrimBreak(contents);
    if i < |LinesOf(contents)| - 1 {
      ReturnLast(t, i);
      CrlfInside(contents);
    }
  }

  /** What the action does on the result. */
  lemma ActionTwice(contents: string, as': seq<Assignment>, letter: Classifier, i: nat)
    requires ValidAssignments(as') && Classifies(letter) && Index(contents, "\r\n") < 0
    requires i < |LinesOf(contents)| && KeepsReturn(LinesOf(contents), i, ValuesOf(as'))
    ensures var u := UpsertLines(LinesOf(contents), as', letter);
      && u != [] && DotenvAction(contents, as', letter) == TextOf(u)
      && DotenvAction(TextOf(u), as', letter) == TextOf(AddReturns(TrimAll(u)))
  {
    hide UpsertLines, LinesOf, Join, FromCrlf, ToCrlf, Index, Rewritten, Upsert, AddReturns;
    var lines := LinesOf(contents);
    LinesUnbroken(contents);
    var u := UpsertLines(lines, as', letter);
    UpsertText(contents, as', letter);
    ResultLines(lines, as', letter);
    UpsertLength(lines, as', letter);
    SecondPass(lines, as', letter);
    var p := LineEnd(u, i);
    CrlfFound(TextOf(u), p);
    TrimUnbroken(u);
    ToCrlfLines(TrimAll(u));
  }

  lemma KeptLast(contents: string, as': seq<Assignment>, i: nat)
    requires Index(contents, "\r\n") < 0 && i < |LinesOf(contents)| && KeepsReturn(LinesOf(contents), i, ValuesOf(as'))
    ensures i == |LinesOf(contents)| - 1
  {
    hide Index, LinesOf, Rewritten, EndsInReturn;
    OnlyLastReturns(contents, i);
  }

  /** The result of such a file has carriage returns on all lines only if it is one
      line. */
  lemma AllReturns(contents: string, as': seq<Assignment>, letter: Classifier, i: nat)
    requires ValidAssignments(as') && Classifies(letter) && Index(contents, "\r\n") < 0
    requires i < |LinesOf(contents)| && KeepsReturn(LinesOf(contents), i, ValuesOf(as'))
    ensures var u := UpsertLines(LinesOf(contents), as', letter);
      && Unbroken(u) && u != []
      && ((forall j :: 0 <= j < |u| ==> EndsInReturn(u[j])) <==> |u| == 1)
  {
    hide *;
    var lines := LinesOf(contents);
    LinesUnbroken(contents);
    var u := UpsertLines(lines, as', letter);
    ResultLines(lines, as', letter);
    UpsertLength(lines, as', letter);
    KeptLast(contents, as', i);
    if |u| > 1 && forall j :: 0 <= j < |u| ==> EndsInReturn(u[j]) {
      var j := if i == 0 then 1 else 0;
      assert EndsInReturn(u[j]);
      KeptLast(contents, as', j);
    }
  }

  /** In a file without CRLF with such a last line, kept, the second run sees CRLF and
      gives it to every line. */
  lemma ActionReturns(contents: string, as': seq<Assignment>, letter: Classifier, i: nat)
    requires ValidAssignments(as') && Classifies(letter) && Index(contents, "\r\n") < 0
    requires i < |LinesOf(contents)| && KeepsReturn(LinesOf(contents), i, ValuesOf(as'))
    ensures var out := DotenvAction(contents, as', letter);
      DotenvAction(out, as', letter) == out <==> |UpsertLines(LinesOf(contents), as', letter)| == 1
  {
    hide *;
    var u := UpsertLines(LinesOf(contents), as', letter);
    ActionTwice(contents, as', letter, i);
    AllReturns(contents, as', letter, i);
    ReturnsBack(u);
    TrimUnbroken(u);
    AddUnbroken(TrimAll(u));
    if TextOf(AddReturns(TrimAll(u))) == TextOf(u) { TextInjective(u, AddReturns(TrimAll(u))); }
  }

  lemma UpsertText(contents: string, as': seq<Assignment>, letter: Classifier)
    ensures Upsert(contents, as', letter) == TextOf(UpsertLines(LinesOf(contents), as', letter))
  {
  }

  lemma TrimUnbroken(u: seq<string>)
    requires Unbroken(u)
    ensures Unbroken(TrimAll(u))
  {
  }

  lemma AddUnbroken(v: seq<string>)
    requires Unbroken(v)
    ensures Unbroken(AddReturns(v))
  {
  }

  /** Dropping and adding carriage returns comes back to lines that all have one. */
  lemma ReturnsBack(u: seq<string>)
    ensures AddReturns(TrimAll(u)) == u <==> forall j :: 0 <= j < |u| ==> EndsInReturn(u[j])
  {
    var w := AddReturns(TrimAll(u));
    forall j | 0 <= j < |u|
      ensures w[j] == u[j] <==> EndsInReturn(u[j])
    {
      if EndsInReturn(u[j]) { assert u[j] == u[j][..|u[j]| - 1] + "\r"; }
    }
  }

  /** The file uses CRLF, or no kept line ends in a carriage return, or the result is a
      single line. */
  predicate Steady(contents: string, as': seq<Assignment>, letter: Classifier) {
    var lines := LinesOf(contents);
    || Index(contents, "\r\n") >= 0
    || (forall i :: 0 <= i < |lines| ==> !KeepsReturn(lines, i, ValuesOf(as')))
    || |UpsertLines(lines, as', letter)| == 1
  }

  /** The action is idempotent exactly on such files. */
  lemma DotenvActionIdempotent(contents: string, as': seq<Assignment>, letter: Classifier)
    requires ValidAssignments(as') && Classifies(letter)
    ensures var out := DotenvAction(contents, as', letter);
      DotenvAction(out, as', letter) == out <==> Steady(contents, as', letter)
  {
    hide DotenvAction, KeepsReturn, LinesOf, UpsertLines, Index;
    var lines := LinesOf(contents);
    if i :| 0 <= i < |lines| && KeepsReturn(lines, i, ValuesOf(as')) {
      if Index(contents, "\r\n") >= 0 {
        ActionSettles(contents, as', letter);
      } else {
        ActionReturns(contents, as', letter, i);
      }
    } else {
      ActionSettles(contents, as', letter);
    }
  }

  lemma ActionSettles(contents: string, as': seq<Assignment>, letter: Classifier)
    requires ValidAssignments(as') && Classifies(letter)
    requires Index(contents, "\r\n") >= 0 ||
      (var lines := LinesOf(contents); forall i :: 0 <= i < |lines| ==> !KeepsReturn(lines, i, ValuesOf(as')))
    ensures var out := DotenvAction(contents, as', letter); DotenvAction(out, as', letter) == out
  {
    hide ParseLine, RenderLine, ValidVariable, Missing, UpsertLines, KeepsReturn, LinesOf, Join, FromCrlf, ToCrlf, Index;
    var lines := LinesOf(contents);
    LinesUnbroken(contents);
    var u := UpsertLines(lines, as', letter);
    ResultLines(lines, as', letter);
    LinesIdempotent(lines, as', letter);
    if Index(contents, "\r\n") >= 0 {
      CrlfLines(u);
      assert TextOf(u)[|TextOf(u)| - 1] == '\n';
      CrlfShows(TextOf(u));
    } else {
      UpsertIdempotentExactly(contents, as', letter);
      forall j | 0 <= j < |u|
        ensures TrimReturn(u[j]) == u[j]
      {
        assert !(j < |lines| && KeepsReturn(lines, j, ValuesOf(as')));
      }
      assert TrimAll(u) == u;
      if u == [] { EmptyText(); } else { FromCrlfLines(u); }
      CrlfShortens(TextOf(u));
    }
  }

  lemma EmptyText()
    ensures FromCrlf(TextOf([])) == TextOf([])
  {
  }

  /** A carriage return left over by each pass: the second run of the upsert is not
      the identity. */
  lemma LoneReturnLine(letter: Classifier)
    requires Classifies(letter)
    ensures Upsert(Upsert("a\r\r\n", [], letter), [], letter) != Upsert("a\r\r\n", [], letter)
  {
    hide LinesOf, ParseLine;
    assert LinesOf("a\r\r\n") == ["a\r"] by { LoneLines(); }
    assert !Rewritten(["a\r"], 0, map[]);
    assert KeepsReturn(LinesOf("a\r\r\n"), 0, ValuesOf([]));
    UpsertIdempotentExactly("a\r\r\n", [], letter);
  }

  lemma LoneLines()
    ensures LinesOf("a\r\r\n") == ["a\r"]
  {
    FromCrlfLine("a\r\r"[..2] + "\r", "");
    assert "a\r\r" + "\n" + "" == "a\r\r\n";
    assert TrimReturn("a\r\r") == "a\r";
    assert FromCrlf("a\r\r\n") == "a\r" + "\n" + "";
    SplitLine("a\r", "");
  }
}
