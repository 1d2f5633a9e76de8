/** The laws of upsertDotenvAssignments. */
module DotenvLaws {
  import opened Text
  import opened Dotenv
  import opened DotenvWriter
  import opened ManifestChecker

  /** The names are variable names, each given once. */
  ghost predicate ValidAssignments(as': seq<Assignment>) {
    && (forall i :: 0 <= i < |as'| ==> ValidVariable(as'[i].name))
    && (forall i, j :: 0 <= i < j < |as'| ==> as'[i].name != as'[j].name)
  }

  // ----- written lines -----

  lemma {:induction false} FirstIndexIs(s: string, c: char, n: nat)
    requires n < |s| && s[n] == c && forall i :: 0 <= i < n ==> s[i] != c
    ensures FirstIndex(s, c) == n
  {
    if n > 0 { FirstIndexIs(s[1..], c, n - 1); }
  }

  /** A written line is an active line of its name. */
  lemma RenderedLine(name: string, value: string, letter: Classifier)
    requires ValidVariable(name)
    ensures ActiveLine(RenderLine(name, value, letter), name)
  {
    hide RenderValue, TrimSpace;
    var line := RenderLine(name, value, letter);
    var n := |name|;
    assert forall i :: 0 <= i < n ==> line[i] == name[i] && !IsSpace(name[i]) && name[i] != '=' && name[i] != '#';
    assert line[0] == name[0] && line[n] == '=';
    assert TrimLeft(line) == line;
    var e := "export ";
    assert n < 6 ==> line[n] != e[n];
    assert |line| > 6 && n >= 6 ==> line[6] != e[6];
    assert !(e <= line);
    FirstIndexIs(line, '=', n);
    assert line[..n] == name;
    TrimWord(name);
  }

  lemma {:induction false} EscapedNoBreak(s: string)
    ensures forall c :: c in EscapeAll(s) ==> c != '\n' && c != '\r'
  {
    if s != "" { EscapedNoBreak(s[1..]); }
  }

  /** A written line has no line break and does not end in a carriage return. */
  lemma RenderedText(name: string, value: string, letter: Classifier)
    requires ValidVariable(name) && Classifies(letter)
    ensures var line := RenderLine(name, value, letter); '\n' !in line && '\r' !in line && line != ""
  {
    NameText(name);
    ValueRendered(value, letter);
    var line := RenderLine(name, value, letter);
    assert line == name + "=" + RenderValue(value, letter);
  }

  lemma NameText(name: string)
    requires ValidVariable(name)
    ensures '\n' !in name && '\r' !in name
  {
  }

  lemma ValueRendered(value: string, letter: Classifier)
    requires Classifies(letter)
    ensures '\n' !in RenderValue(value, letter) && '\r' !in RenderValue(value, letter)
  {
    var t := RenderValue(value, letter);
    if value == "" || NeedsQuotes(value, letter) {
      SixIsEscape(value);
      EscapedNoBreak(value);
      assert t == "\"" + EscapeAll(value) + "\"";
    } else {
      assert forall i :: 0 <= i < |value| ==> letter(value[i]) || value[i] in "_-./:@";
    }
  }

  // ----- what the lines hold afterwards -----

  lemma {:induction false} ValuesDistinct(as': seq<Assignment>, i: nat)
    requires ValidAssignments(as') && i < |as'|
    ensures as'[i].name in ValuesOf(as') && ValuesOf(as')[as'[i].name] == as'[i].value
    decreases |as'|
  {
    var n := |as'| - 1;
    if i < n {
      assert as'[i].name != as'[n].name;
      assert forall k :: 0 <= k < n ==> as'[..n][k] == as'[k];
      ValuesDistinct(as'[..n], i);
    }
  }

  lemma {:induction false} ValuesFrom(as': seq<Assignment>, name: string) returns (i: nat)
    requires name in ValuesOf(as')
    ensures i < |as'| && as'[i].name == name && ValuesOf(as')[name] == as'[i].value
    decreases |as'|
  {
    var n := |as'| - 1;
    i := n;
    if as'[n].name != name { i := ValuesFrom(as'[..n], name); }
  }

  /** A missing line belongs to an assignment that no line mentions; and each such
      assignment has its line. */
  lemma {:induction false} MissingFrom(as': seq<Assignment>, lines: seq<string>, letter: Classifier, k: nat) returns (i: nat)
    requires k < |Missing(as', lines, letter)|
    ensures i < |as'| && !Mentioned(lines, as'[i].name) && Missing(as', lines, letter)[k] == RenderLine(as'[i].name, as'[i].value, letter)
    decreases |as'|
  {
    hide RenderLine, Mentioned;
    var n := |as'| - 1;
    var rest := Missing(as'[..n], lines, letter);
    if k < |rest| { i := MissingFrom(as'[..n], lines, letter, k); } else { i := n; }
  }

  lemma {:induction false} MissingHas(as': seq<Assignment>, lines: seq<string>, letter: Classifier, i: nat) returns (k: nat)
    requires i < |as'| && !Mentioned(lines, as'[i].name)
    ensures k < |Missing(as', lines, letter)| && Missing(as', lines, letter)[k] == RenderLine(as'[i].name, as'[i].value, letter)
    decreases |as'|
  {
    hide RenderLine, Mentioned;
    var n := |as'| - 1;
    if i < n {
      k := MissingHas(as'[..n], lines, letter, i);
    } else {
      k := |Missing(as'[..n], lines, letter)|;
    }
  }

  lemma ActiveMentioned(lines: seq<string>, name: string)
    ensures Active(lines, name) ==> Mentioned(lines, name)
  {
  }

  /** The lines after the blank one that may separate them. */
  lemma UpsertAt(lines: seq<string>, as': seq<Assignment>, letter: Classifier, j: nat)
    requires j < |UpsertLines(lines, as', letter)|
    ensures var u := UpsertLines(lines, as', letter);
      var m := Missing(as', lines, letter);
      var n := |u| - |m|;
      && |lines| <= n <= |lines| + 1
      && (j < |lines| ==> u[j] == NewLine(lines, j, ValuesOf(as'), letter))
      && (|lines| <= j < n ==> u[j] == "") && (n <= j ==> u[j] == m[j - n])
  {
  }

  lemma BlankAssigns(name: string)
    ensures !Assigns("", name)
  {
  }

  /** A rewritten line is the written line of its name. */
  lemma RewrittenIs(lines: seq<string>, i: nat, as': seq<Assignment>, letter: Classifier)
    requires i < |lines| && Rewritten(lines, i, ValuesOf(as'))
    ensures var name := ParseLine(lines[i]).value.0; name in ValuesOf(as') && NewLine(lines, i, ValuesOf(as'), letter) == RenderLine(name, ValuesOf(as')[name], letter)
  {
  }

  /** Every active line of a managed name carries the new value. */
  lemma UpsertCarries(lines: seq<string>, as': seq<Assignment>, letter: Classifier, i: nat, j: nat)
    requires ValidAssignments(as') && i < |as'| && j < |UpsertLines(lines, as', letter)|
    requires ActiveLine(UpsertLines(lines, as', letter)[j], as'[i].name)
    ensures UpsertLines(lines, as', letter)[j] == RenderLine(as'[i].name, as'[i].value, letter)
  {
    hide ParseLine, RenderLine, ValidVariable, Missing, UpsertLines, Mentioned, Active;
    var u, values := UpsertLines(lines, as', letter), ValuesOf(as');
    var a := as'[i];
    UpsertAt(lines, as', letter, j);
    ValuesDistinct(as', i);
    if j < |lines| {
      assert Rewritten(lines, j, values);
      RewrittenIs(lines, j, as', letter);
      var name := ParseLine(lines[j]).value.0;
      var k := ValuesFrom(as', name);
      RenderedLine(name, values[name], letter);
      assert name == a.name;
    } else if u[j] == "" {
      BlankAssigns(a.name);
    } else {
      var k := MissingFrom(as', lines, letter, j - (|u| - |Missing(as', lines, letter)|));
      RenderedLine(as'[k].name, as'[k].value, letter);
      assert as'[k].name == a.name;
      assert k == i;
    }
  }

  /** Every managed name has an active line. */
  lemma UpsertActivates(lines: seq<string>, as': seq<Assignment>, letter: Classifier, i: nat)
    requires ValidAssignments(as') && i < |as'|
    ensures Active(UpsertLines(lines, as', letter), as'[i].name)
  {
    hide ParseLine, RenderLine, ValidVariable, Missing, Mentioned, Active, UpsertLines, Rewritten, NewLine;
    var u, values := UpsertLines(lines, as', letter), ValuesOf(as');
    var a := as'[i];
    ValuesDistinct(as', i);
    RenderedLine(a.name, a.value, letter);
    var j: nat;
    if Mentioned(lines, a.name) {
      WrittenAtEnd(lines, a.name, values);
      j :| 0 <= j < |lines| && Rewritten(lines, j, values) && Assigns(lines[j], a.name);
      UpsertLength(lines, as', letter);
      UpsertAt(lines, as', letter, j);
      RewrittenIs(lines, j, as', letter);
      assert ParseLine(lines[j]).value.0 == a.name;
    } else {
      var k := MissingHas(as', lines, letter, i);
      UpsertLength(lines, as', letter);
      j := |u| - |Missing(as', lines, letter)| + k;
      UpsertAt(lines, as', letter, j);
    }
    IsActive(u, j, a.name);
  }

  lemma UpsertLength(lines: seq<string>, as': seq<Assignment>, letter: Classifier)
    ensures |UpsertLines(lines, as', letter)| >= |lines| + |Missing(as', lines, letter)|
  {
  }

  lemma IsActive(u: seq<string>, j: nat, name: string)
    requires j < |u| && ActiveLine(u[j], name)
    ensures Active(u, name)
  {
  }

  /** Line j is the only active line of the name. */
  predicate OnlyActive(u: seq<string>, j: nat, name: string) {
    j < |u| && forall k :: 0 <= k < |u| ==> (ActiveLine(u[k], name) <==> k == j)
  }

  /** What becomes an active line of a managed name: a rewritten line of the name, or
      its missing line. */
  lemma ActiveAfter(lines: seq<string>, as': seq<Assignment>, letter: Classifier, i: nat, j: nat)
    requires ValidAssignments(as') && i < |as'| && j < |UpsertLines(lines, as', letter)|
    ensures var u, m, name := UpsertLines(lines, as', letter), Missing(as', lines, letter), as'[i].name;
      var n := |u| - |m|;
      && |lines| <= n
      && (ActiveLine(u[j], name) <==> if j < |lines| then Rewritten(lines, j, ValuesOf(as')) && Assigns(lines[j], name) else n <= j && ActiveLine(m[j - n], name))
  {
    hide ParseLine, RenderLine, ValidVariable, Missing, UpsertLines, Mentioned, Active;
    var values, name := ValuesOf(as'), as'[i].name;
    UpsertAt(lines, as', letter, j);
    ValuesDistinct(as', i);
    BlankAssigns(name);
    if j < |lines| && Rewritten(lines, j, values) {
      RewrittenIs(lines, j, as', letter);
      var other := ParseLine(lines[j]).value.0;
      var k := ValuesFrom(as', other);
      RenderedLine(other, values[other], letter);
    }
  }

  lemma {:induction false} MissingOnce(as': seq<Assignment>, lines: seq<string>, letter: Classifier, name: string, j: nat, k: nat)
    requires ValidAssignments(as') && j <= k < |Missing(as', lines, letter)|
    requires ActiveLine(Missing(as', lines, letter)[j], name) && ActiveLine(Missing(as', lines, letter)[k], name)
    ensures j == k && !Mentioned(lines, name)
    decreases |as'|
  {
    hide RenderLine, Mentioned, ParseLine, ValidVariable;
    var n := |as'| - 1;
    var rest := Missing(as'[..n], lines, letter);
    var i := MissingFrom(as', lines, letter, j);
    RenderedLine(as'[i].name, as'[i].value, letter);
    if k < |rest| {
      MissingOnce(as'[..n], lines, letter, name, j, k);
    } else if j < |rest| {
      var h := MissingFrom(as'[..n], lines, letter, j);
      RenderedLine(as'[h].name, as'[h].value, letter);
      RenderedLine(as'[n].name, as'[n].value, letter);
      assert false;
    }
  }

  /** A managed name keeps the places of its active lines; if it has none, it gets
      exactly one, in the place of the first line that mentions it if there is one. */
  lemma UpsertOnce(lines: seq<string>, as': seq<Assignment>, letter: Classifier, i: nat)
    requires ValidAssignments(as') && i < |as'|
    ensures var u, name := UpsertLines(lines, as', letter), as'[i].name;
      if Active(lines, name) then forall j :: 0 <= j < |u| ==> (ActiveLine(u[j], name) <==> j < |lines| && ActiveLine(lines[j], name))
      else exists j: nat :: OnlyActive(u, j, name) && (Mentioned(lines, name) ==> j < |lines| && Assigns(lines[j], name) && !Mentioned(lines[..j], name))
  {
    hide ParseLine, RenderLine, ValidVariable, Missing, UpsertLines;
    var u, m, name := UpsertLines(lines, as', letter), Missing(as', lines, letter), as'[i].name;
    ValuesDistinct(as', i);
    forall j | 0 <= j < |u|
      ensures var n := |u| - |m|;
        ActiveLine(u[j], name) <==> if j < |lines| then Rewritten(lines, j, ValuesOf(as')) && Assigns(lines[j], name) else n <= j && ActiveLine(m[j - n], name)
    {
      ActiveAfter(lines, as', letter, i, j);
    }
    UpsertLength(lines, as', letter);
    var n := |u| - |m|;
    if Mentioned(lines, name) {
      forall k | 0 <= k < |m|
        ensures !ActiveLine(m[k], name)
      {
        if ActiveLine(m[k], name) { MissingOnce(as', lines, letter, name, k, k); }
      }
      if !Active(lines, name) {
        var j := FirstMention(lines, name);
        TemplateFirst(lines, ValuesOf(as'), name, j);
        assert OnlyActive(u, j, name);
      }
    } else {
      NotActive(lines, name);
      var k := MissingHas(as', lines, letter, i);
      RenderedLine(name, as'[i].value, letter);
      forall l | 0 <= l < |m| && ActiveLine(m[l], name)
        ensures l == k
      {
        MissingOnce(as', lines, letter, name, if l < k then l else k, if l < k then k else l);
      }
      assert OnlyActive(u, n + k, name);
    }
  }

  lemma NotActive(lines: seq<string>, name: string)
    requires !Mentioned(lines, name)
    ensures !Active(lines, name) && forall j :: 0 <= j < |lines| ==> !Assigns(lines[j], name)
  {
  }

  lemma {:induction false} FirstMention(lines: seq<string>, name: string) returns (j: nat)
    requires Mentioned(lines, name)
    ensures j < |lines| && Assigns(lines[j], name) && !Mentioned(lines[..j], name)
    decreases |lines|
  {
    hide ParseLine;
    var n := |lines| - 1;
    if Mentioned(lines[..n], name) {
      j := FirstMention(lines[..n], name);
      assert lines[..n][..j] == lines[..j];
    } else {
      j := n;
    }
  }

  /** Of the lines that mention the name only the first is rewritten. */
  lemma TemplateFirst(lines: seq<string>, values: map<string, string>, name: string, j: nat)
    requires name in values && !Active(lines, name) && j < |lines| && Assigns(lines[j], name) && !Mentioned(lines[..j], name)
    ensures forall k :: 0 <= k < |lines| ==> (Rewritten(lines, k, values) && Assigns(lines[k], name) <==> k == j)
  {
    hide ParseLine;
    forall k | 0 <= k < |lines| && Assigns(lines[k], name)
      ensures Rewritten(lines, k, values) <==> k == j
    {
      if j < k { assert lines[..k][j] == lines[j]; }
    }
  }

  // ----- a second run over the lines -----

  lemma NothingMissing(as': seq<Assignment>, lines: seq<string>, letter: Classifier)
    requires forall i :: 0 <= i < |as'| ==> Mentioned(lines, as'[i].name)
    ensures Missing(as', lines, letter) == []
  {
    hide ParseLine, RenderLine, Mentioned;
    if |Missing(as', lines, letter)| > 0 { var i := MissingFrom(as', lines, letter, 0); }
  }

  /** Lines in which every managed name is active, with its value, stay as they are. */
  lemma UpsertSettled(lines: seq<string>, as': seq<Assignment>, letter: Classifier)
    requires ValidAssignments(as') && (forall i :: 0 <= i < |as'| ==> Active(lines, as'[i].name))
    requires forall i, j :: 0 <= i < |as'| && 0 <= j < |lines| && ActiveLine(lines[j], as'[i].name) ==> lines[j] == RenderLine(as'[i].name, as'[i].value, letter)
    ensures UpsertLines(lines, as', letter) == lines
  {
    hide ParseLine, RenderLine, ValidVariable, Missing, Mentioned, Active;
    var values := ValuesOf(as');
    forall i | 0 <= i < |as'|
      ensures Mentioned(lines, as'[i].name)
    {
      ActiveMentioned(lines, as'[i].name);
    }
    NothingMissing(as', lines, letter);
    forall j | 0 <= j < |lines|
      ensures NewLine(lines, j, values, letter) == lines[j]
    {
      if Rewritten(lines, j, values) {
        var name := ParseLine(lines[j]).value.0;
        var i := ValuesFrom(as', name);
        assert Active(lines, as'[i].name);
        assert ActiveLine(lines[j], as'[i].name);
      }
    }
    assert NewLines(lines, values, letter) == lines;
  }

  /** A second run over the lines changes nothing. */
  lemma LinesIdempotent(lines: seq<string>, as': seq<Assignment>, letter: Classifier)
    requires ValidAssignments(as')
    ensures UpsertLines(UpsertLines(lines, as', letter), as', letter) == UpsertLines(lines, as', letter)
  {
    hide ParseLine, RenderLine, ValidVariable, Missing, Mentioned, Active, UpsertLines, ActiveLine;
    var u := UpsertLines(lines, as', letter);
    forall i | 0 <= i < |as'|
      ensures Active(u, as'[i].name)
    {
      UpsertActivates(lines, as', letter, i);
    }
    forall i, j | 0 <= i < |as'| && 0 <= j < |u| && ActiveLine(u[j], as'[i].name)
      ensures u[j] == RenderLine(as'[i].name, as'[i].value, letter)
    {
      UpsertCarries(lines, as', letter, i, j);
    }
    UpsertSettled(u, as', letter);
  }

  /** The lines that assign to no managed name. */
  function Unmanaged(lines: seq<string>, values: map<string, string>): seq<string> {
    if lines == [] then []
    else
      var l := lines[|lines| - 1];
      Unmanaged(lines[..|lines| - 1], values) + if ParseLine(l).Some? && ParseLine(l).value.0 in values then [] else [l]
  }

  lemma {:induction false} UnmanagedConcat(a: seq<string>, b: seq<string>, values: map<string, string>)
    ensures Unmanaged(a + b, values) == Unmanaged(a, values) + Unmanaged(b, values)
    decreases |b|
  {
    hide ParseLine;
    if b == [] {
      assert a + b == a;
    } else {
      assert (a + b)[..|a + b| - 1] == a + b[..|b| - 1];
      UnmanagedConcat(a, b[..|b| - 1], values);
    }
  }

  lemma {:induction false} UnmanagedNew(lines: seq<string>, as': seq<Assignment>, letter: Classifier, k: nat)
    requires ValidAssignments(as') && k <= |lines|
    ensures Unmanaged(NewLines(lines, ValuesOf(as'), letter)[..k], ValuesOf(as')) == Unmanaged(lines[..k], ValuesOf(as'))
    decreases k
  {
    hide ParseLine, RenderLine, ValidVariable, Rewritten;
    var values, new' := ValuesOf(as'), NewLines(lines, ValuesOf(as'), letter);
    if k > 0 {
      UnmanagedNew(lines, as', letter, k - 1);
      assert new'[..k][..k - 1] == new'[..k - 1] && lines[..k][..k - 1] == lines[..k - 1];
      if Rewritten(lines, k - 1, values) {
        RewrittenParsed(lines, k - 1, values);
        RewrittenIs(lines, k - 1, as', letter);
        var name := ParseLine(lines[k - 1]).value.0;
        var i := ValuesFrom(as', name);
        RenderedLine(name, values[name], letter);
      }
    }
  }

  lemma RewrittenParsed(lines: seq<string>, i: nat, values: map<string, string>)
    requires i < |lines| && Rewritten(lines, i, values)
    ensures ParseLine(lines[i]).Some?
  {
  }

  /** New lines stand at the end, behind a blank line unless nothing is before them; it
      is added only where there is none. */
  lemma UpsertApart(lines: seq<string>, as': seq<Assignment>, letter: Classifier)
    ensures
      var r, missing := UpsertLines(lines, as', letter), Missing(as', lines, letter);
      var n := |r| - |missing|;
      && n >= 0 && r[n..] == missing
      && (missing != [] && n > 0 ==> AllSpace(r[n - 1]))
      && (n != |lines| ==> n == |lines| + 1 && missing != [] && |lines| > 0 && !AllSpace(r[|lines| - 1]) && r[|lines|] == "")
  {
    hide NewLines, Missing, AllSpace;
    assert AllSpace("") by { NoSpace(); }
  }

  lemma NoSpace()
    ensures AllSpace("")
  {
  }

  /** Lines that assign to no managed name stay, in order; at most one blank line
      comes to separate them from what is appended. */
  lemma UpsertKeeps(lines: seq<string>, as': seq<Assignment>, letter: Classifier)
    requires ValidAssignments(as')
    ensures var u, values := UpsertLines(lines, as', letter), ValuesOf(as');
      Unmanaged(u, values) == Unmanaged(lines, values) || Unmanaged(u, values) == Unmanaged(lines, values) + [""]
  {
    hide ParseLine, RenderLine, ValidVariable, Missing;
    var u, values := UpsertLines(lines, as', letter), ValuesOf(as');
    var new', missing := NewLines(lines, values, letter), Missing(as', lines, letter);
    var blank := u[|lines|..|u| - |missing|];
    UpsertLength(lines, as', letter);
    UnmanagedNew(lines, as', letter, |lines|);
    assert new'[..|lines|] == new' && lines[..|lines|] == lines;
    assert u == new' + blank + missing;
    UnmanagedConcat(new' + blank, missing, values);
    UnmanagedConcat(new', blank, values);
    MissingManaged(as', lines, letter, |missing|);
    assert missing[..|missing|] == missing;
    assert blank == [] || blank == [""];
    UnmanagedBlank(values);
  }

  lemma UnmanagedBlank(values: map<string, string>)
    ensures Unmanaged([], values) == [] && Unmanaged([""], values) == [""]
  {
  }

  lemma {:induction false} MissingManaged(as': seq<Assignment>, lines: seq<string>, letter: Classifier, k: nat)
    requires ValidAssignments(as') && k <= |Missing(as', lines, letter)|
    ensures Unmanaged(Missing(as', lines, letter)[..k], ValuesOf(as')) == []
    decreases k
  {
    hide ParseLine, RenderLine, ValidVariable, Missing;
    if k > 0 {
      var m := Missing(as', lines, letter);
      assert m[..k][..k - 1] == m[..k - 1];
      MissingManaged(as', lines, letter, k - 1);
      var i := MissingFrom(as', lines, letter, k - 1);
      RenderedLine(as'[i].name, as'[i].value, letter);
      ValuesDistinct(as', i);
    }
  }
}
