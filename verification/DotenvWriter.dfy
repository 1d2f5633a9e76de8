/** upsertDotenvAssignments: managed lines are rewritten in place, missing ones are
    appended, everything else stays. */
module DotenvWriter {
  import opened Text
  import opened Dotenv

  datatype Assignment = Assignment(name: string, value: string)

  // ----- lines -----

  /** strings.ReplaceAll(s, "\r\n", "\n") */
  function FromCrlf(s: string): string {
    if s == "" then "" else if "\r\n" <= s then "\n" + FromCrlf(s[2..]) else [s[0]] + FromCrlf(s[1..])
  }

  /** strings.ReplaceAll(s, "\n", "\r\n") */
  function ToCrlf(s: string): string {
    if s == "" then "" else if s[0] == '\n' then "\r\n" + ToCrlf(s[1..]) else [s[0]] + ToCrlf(s[1..])
  }

  function TrimBreak(s: string): string {
    if s != "" && s[|s| - 1] == '\n' then s[..|s| - 1] else s
  }

  function LinesOf(contents: string): seq<string> {
    var normalized := TrimBreak(FromCrlf(contents));
    if normalized == "" then [] else SplitOn(normalized, '\n')
  }

  function TextOf(lines: seq<string>): string { Join(lines, "\n") + "\n" }

  /** parseDotenvAssignmentLine: the name, and whether the line is commented out. */
  function ParseLine(line: string): Option<(string, bool)> {
    var t0 := TrimLeft(line);
    var commented := t0 != "" && t0[0] == '#';
    var t1 := if commented then TrimLeft(t0[1..]) else t0;
    var t2 := if "export " <= t1 then TrimLeft(t1[|"export "|..]) else t1;
    var n := FirstIndex(t2, '=');
    if n < 0 then None
    else
      var name := TrimSpace(t2[..n]);
      if name == "" then None else Some((name, commented))
  }

  function RenderLine(name: string, value: string, letter: Classifier): string {
    name + "=" + RenderValue(value, letter)
  }

  /** The line assigns to the name, commented out or not. */
  predicate Assigns(line: string, name: string) {
    ParseLine(line).Some? && ParseLine(line).value.0 == name
  }

  predicate ActiveLine(line: string, name: string) { ParseLine(line) == Some((name, false)) }

  predicate Active(lines: seq<string>, name: string) {
    exists i :: 0 <= i < |lines| && ActiveLine(lines[i], name)
  }

  predicate Mentioned(lines: seq<string>, name: string) {
    exists i :: 0 <= i < |lines| && Assigns(lines[i], name)
  }

  /** Line i is rewritten: it is an active line of a managed name, or the first
      template line of a managed name that has no active line. */
  predicate Rewritten(lines: seq<string>, i: nat, values: map<string, string>)
    requires i < |lines|
  {
    match ParseLine(lines[i])
    case None => false
    case Some(p) => p.0 in values && (p.1 ==> !Active(lines, p.0) && !Mentioned(lines[..i], p.0))
  }

  function NewLine(lines: seq<string>, i: nat, values: map<string, string>, letter: Classifier): string
    requires i < |lines|
  {
    if Rewritten(lines, i, values) then RenderLine(ParseLine(lines[i]).value.0, values[ParseLine(lines[i]).value.0], letter) else lines[i]
  }

  /** All lines after the rewriting. */
  function NewLines(lines: seq<string>, values: map<string, string>, letter: Classifier): (r: seq<string>)
    ensures |r| == |lines| && forall i :: 0 <= i < |lines| ==> r[i] == NewLine(lines, i, values, letter)
  {
    seq(|lines|, i requires 0 <= i < |lines| => NewLine(lines, i, values, letter))
  }

  /** The last value given for each name. */
  function ValuesOf(as': seq<Assignment>): map<string, string> {
    if as' == [] then map[] else ValuesOf(as'[..|as'| - 1])[as'[|as'| - 1].name := as'[|as'| - 1].value]
  }

  /** The lines of the assignments whose names are not mentioned. */
  function Missing(as': seq<Assignment>, lines: seq<string>, letter: Classifier): seq<string> {
    if as' == [] then []
    else
      var a := as'[|as'| - 1];
      Missing(as'[..|as'| - 1], lines, letter) + if Mentioned(lines, a.name) then [] else [RenderLine(a.name, a.value, letter)]
  }

  function UpsertLines(lines: seq<string>, as': seq<Assignment>, letter: Classifier): seq<string> {
    var missing := Missing(as', lines, letter);
    var kept := NewLines(lines, ValuesOf(as'), letter);
    kept + (if missing != [] && kept != [] && !AllSpace(kept[|kept| - 1]) then [""] else []) + missing
  }

  /** upsertDotenvAssignments */
  function Upsert(contents: string, as': seq<Assignment>, letter: Classifier): string {
    TextOf(UpsertLines(LinesOf(contents), as', letter))
  }

  // ----- the loops -----

  method ActiveNames(lines: seq<string>) returns (names: set<string>)
    ensures forall n :: n in names <==> Active(lines, n)
  {
    hide ParseLine;
    names := {};
    var i := 0;
    while i < |lines|
      invariant i <= |lines|
      invariant forall n :: n in names <==> exists j :: 0 <= j < i && ActiveLine(lines[j], n)
    {
      var p := ParseLine(lines[i]);
      if p.Some? && !p.value.1 { names := names + {p.value.0}; }
      i := i + 1;
    }
  }

  method ValueMap(as': seq<Assignment>) returns (values: map<string, string>)
    ensures values == ValuesOf(as')
  {
    values := map[];
    var i := 0;
    while i < |as'|
      invariant i <= |as'| && values == ValuesOf(as'[..i])
    {
      assert as'[..i + 1][..i] == as'[..i];
      values := values[as'[i].name := as'[i].value];
      i := i + 1;
    }
    assert as'[..i] == as';
  }

  /** Some line before i that assigns to the name is rewritten. */
  predicate WrittenBefore(lines: seq<string>, i: nat, name: string, values: map<string, string>)
    requires i <= |lines|
  {
    exists j :: 0 <= j < i && Rewritten(lines, j, values) && Assigns(lines[j], name)
  }

  /** A managed name is written as soon as it is mentioned, unless its active line is
      still to come. */
  lemma {:induction false} WrittenMeans(lines: seq<string>, i: nat, name: string, values: map<string, string>)
    requires i <= |lines|
    ensures WrittenBefore(lines, i, name, values) ==> name in values && Mentioned(lines[..i], name)
    ensures name in values && Mentioned(lines[..i], name) && !Active(lines, name) ==> WrittenBefore(lines, i, name, values)
    decreases i
  {
    hide ParseLine;
    if WrittenBefore(lines, i, name, values) {
      var j :| 0 <= j < i && Rewritten(lines, j, values) && Assigns(lines[j], name);
      assert lines[..i][j] == lines[j];
    }
    if i > 0 && name in values && Mentioned(lines[..i], name) && !Active(lines, name) {
      WrittenMeans(lines, i - 1, name, values);
      MentionedSnoc(lines, i - 1);
      if !Mentioned(lines[..i - 1], name) {
        assert Assigns(lines[i - 1], name) && !ActiveLine(lines[i - 1], name);
        assert Rewritten(lines, i - 1, values);
      }
    }
  }

  /** In the end every managed name that is mentioned has been written. */
  lemma WrittenAtEnd(lines: seq<string>, name: string, values: map<string, string>)
    ensures WrittenBefore(lines, |lines|, name, values) <==> name in values && Mentioned(lines, name)
  {
    hide ParseLine;
    WrittenMeans(lines, |lines|, name, values);
    assert lines[..|lines|] == lines;
    if name in values && Active(lines, name) {
      var i :| 0 <= i < |lines| && ActiveLine(lines[i], name);
      assert Rewritten(lines, i, values) && Assigns(lines[i], name);
    }
  }

  /** The loop that rewrites lines in place. */
  method RewriteLines(before: seq<string>, values: map<string, string>, active: set<string>, letter: Classifier) returns (lines: seq<string>, written: set<string>)
    requires forall n :: n in active <==> Active(before, n)
    ensures lines == NewLines(before, values, letter)
    ensures forall n :: n in written <==> n in values && Mentioned(before, n)
  {
    hide ParseLine, RenderLine, Mentioned, Active;
    lines := before;
    written := {};
    var index := 0;
    while index < |before|
      invariant index <= |before| == |lines|
      invariant forall j :: 0 <= j < |before| ==> lines[j] == if j < index then NewLine(before, j, values, letter) else before[j]
      invariant forall n :: n in written <==> WrittenBefore(before, index, n, values)
    {
      var p := ParseLine(lines[index]);
      WrittenSnoc(before, index, values);
      if p.None? || p.value.0 !in values {
        index := index + 1;
        continue;
      }
      var name := p.value.0;
      WrittenMeans(before, index, name, values);
      if p.value.1 && (name in active || name in written) {
        index := index + 1;
        continue;
      }
      lines := lines[index := RenderLine(name, values[name], letter)];
      written := written + {name};
      index := index + 1;
    }
    forall n
      ensures n in written <==> n in values && Mentioned(before, n)
    {
      WrittenAtEnd(before, n, values);
    }
  }

  lemma WrittenSnoc(lines: seq<string>, i: nat, values: map<string, string>)
    requires i < |lines|
    ensures forall n :: WrittenBefore(lines, i + 1, n, values) <==> WrittenBefore(lines, i, n, values) || (Rewritten(lines, i, values) && Assigns(lines[i], n))
  {
  }

  lemma MentionedSnoc(lines: seq<string>, i: nat)
    requires i < |lines|
    ensures forall n :: Mentioned(lines[..i + 1], n) <==> Mentioned(lines[..i], n) || Assigns(lines[i], n)
  {
    hide ParseLine, Assigns;
    var a := lines[..i + 1];
    forall n
      ensures Mentioned(a, n) <==> Mentioned(lines[..i], n) || Assigns(lines[i], n)
    {
      assert forall j :: 0 <= j < i ==> a[j] == lines[..i][j];
      assert a[i] == lines[i];
    }
  }

  method MissingLines(as': seq<Assignment>, written: set<string>, ghost lines: seq<string>, letter: Classifier) returns (missing: seq<string>)
    requires forall n :: n in written <==> n in ValuesOf(as') && Mentioned(lines, n)
    ensures missing == Missing(as', lines, letter)
  {
    hide RenderLine, Mentioned;
    missing := [];
    var i := 0;
    while i < |as'|
      invariant i <= |as'| && missing == Missing(as'[..i], lines, letter)
    {
      var a := as'[i];
      assert as'[..i + 1][..i] == as'[..i] && as'[..i + 1][i] == a;
      ValuesHas(as', i);
      if a.name !in written {
        missing := missing + [RenderLine(a.name, a.value, letter)];
      } else {
        assert missing + [] == missing;
      }
      i := i + 1;
    }
    assert as'[..i] == as';
  }

  lemma {:induction false} ValuesHas(as': seq<Assignment>, i: nat)
    requires i < |as'|
    ensures as'[i].name in ValuesOf(as')
    decreases |as'|
  {
    if i < |as'| - 1 { ValuesHas(as'[..|as'| - 1], i); }
  }

  /** upsertDotenvAssignments */
  method UpsertAssignments(contents: string, as': seq<Assignment>, letter: Classifier) returns (r: string)
    ensures r == Upsert(contents, as', letter)
  {
    hide ParseLine, RenderLine, ValuesOf, Missing, NewLines, SplitOn, FromCrlf, Join, Active, Mentioned, AllSpace;
    var valueByName := ValueMap(as');
    var normalized := TrimBreak(FromCrlf(contents));
    var lines: seq<string> := [];
    if normalized != "" { lines := SplitOn(normalized, '\n'); }
    ghost var before := lines;
    var activeNames := ActiveNames(lines);
    var written;
    lines, written := RewriteLines(lines, valueByName, activeNames, letter);
    var missing := MissingLines(as', written, before, letter);
    if |missing| > 0 && |lines| > 0 && !AllSpace(lines[|lines| - 1]) {
      lines := lines + [""];
    } else {
      assert lines + [] == lines;
    }
    lines := lines + missing;
    return Join(lines, "\n") + "\n";
  }
}
