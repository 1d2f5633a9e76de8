/** Semicolon-separated list variables: splitting, joining, and what was added. */
module PathLists {
  import opened Text

  // ----- the operations -----

  /** The entries that are left when blanks are trimmed and empty entries dropped. */
  function Trimmed(parts: seq<string>): seq<string> {
    if parts == [] then []
    else (if TrimSpace(parts[0]) != "" then [TrimSpace(parts[0])] else []) + Trimmed(parts[1..])
  }

  function Entries(value: string): seq<string> { Trimmed(SplitOn(value, ';')) }

  /** splitSemicolonList */
  method SplitSemicolonList(value: string) returns (entries: seq<string>)
    ensures entries == Entries(value)
  {
    hide SplitOn, TrimSpace;
    var parts := SplitOn(value, ';');
    entries := [];
    var i := 0;
    assert parts[0..] == parts;
    while i < |parts|
      invariant i <= |parts| && entries + Trimmed(parts[i..]) == Entries(value)
    {
      assert parts[i..][0] == parts[i] && parts[i..][1..] == parts[i + 1..];
      var trimmed := TrimSpace(parts[i]);
      if trimmed != "" { entries := entries + [trimmed]; }
      i := i + 1;
    }
  }

  function Separator(windows: bool): string { if windows then ";" else ":" }

  /** joinPathList */
  method JoinPathList(windows: bool, entries: seq<string>) returns (r: string)
    ensures r == Join(Trimmed(entries), Separator(windows))
  {
    hide Join, TrimSpace;
    var nonEmpty: seq<string> := [];
    var i := 0;
    assert entries[0..] == entries;
    while i < |entries|
      invariant i <= |entries| && nonEmpty + Trimmed(entries[i..]) == Trimmed(entries)
    {
      assert entries[i..][0] == entries[i] && entries[i..][1..] == entries[i + 1..];
      var trimmed := TrimSpace(entries[i]);
      if trimmed != "" { nonEmpty := nonEmpty + [trimmed]; }
      i := i + 1;
    }
    assert nonEmpty == Trimmed(entries);
    return Join(nonEmpty, Separator(windows));
  }

  /** The comparison forms of entries; form is strings.ToLower after filepath.Clean. */
  function Forms(form: string -> string, entries: seq<string>): set<string> {
    set e | e in entries :: form(e)
  }

  function Added(form: string -> string, seen: set<string>, captured: seq<string>): seq<string>
    decreases |captured|
  {
    if captured == [] then []
    else if form(captured[0]) in seen then Added(form, seen, captured[1..])
    else [captured[0]] + Added(form, seen + {form(captured[0])}, captured[1..])
  }

  /** addedListEntries */
  method AddedListEntries(form: string -> string, baseline: seq<string>, captured: seq<string>) returns (added: seq<string>)
    ensures added == Added(form, Forms(form, baseline), captured)
  {
    var seen: set<string> := {};
    var i := 0;
    while i < |baseline|
      invariant i <= |baseline| && seen == Forms(form, baseline[..i])
    {
      assert baseline[..i + 1] == baseline[..i] + [baseline[i]];
      seen := seen + {form(baseline[i])};
      i := i + 1;
    }
    assert baseline[..i] == baseline;
    added := [];
    i := 0;
    assert captured[0..] == captured;
    while i < |captured|
      invariant i <= |captured| && added + Added(form, seen, captured[i..]) == Added(form, Forms(form, baseline), captured)
    {
      assert captured[i..][0] == captured[i] && captured[i..][1..] == captured[i + 1..];
      var key := form(captured[i]);
      if key !in seen {
        seen := seen + {key};
        added := added + [captured[i]];
      }
      i := i + 1;
    }
  }

  // ----- what is added -----

  /** In order, without duplicates, and exactly what the baseline lacks. */
  lemma {:induction false} AddedLaws(form: string -> string, seen: set<string>, captured: seq<string>)
    ensures
      var added := Added(form, seen, captured);
      && (forall i, j :: 0 <= i < j < |added| ==> form(added[i]) != form(added[j]))
      && (forall e :: e in added ==> e in captured && form(e) !in seen)
      && (forall e :: e in captured ==> form(e) in seen + Forms(form, added))
    decreases |captured|
  {
    if captured != [] {
      var e := captured[0];
      var rest := Added(form, if form(e) in seen then seen else seen + {form(e)}, captured[1..]);
      AddedLaws(form, if form(e) in seen then seen else seen + {form(e)}, captured[1..]);
      if form(e) !in seen {
        var added := [e] + rest;
        forall i, j | 0 <= i < j < |added|
          ensures form(added[i]) != form(added[j])
        {
          assert added[j] == rest[j - 1] && rest[j - 1] in rest;
        }
        forall x | x in rest
          ensures form(x) in Forms(form, added)
        {
          assert x in added;
        }
        assert e in added;
      }
    }
  }

  /** The added entries are the captured ones in their order. */
  predicate Subsequence(a: seq<string>, b: seq<string>)
    decreases |b|
  {
    a == [] || (b != [] && if a[0] == b[0] then Subsequence(a[1..], b[1..]) else Subsequence(a, b[1..]))
  }

  lemma {:induction false} AddedOrder(form: string -> string, seen: set<string>, captured: seq<string>)
    ensures Subsequence(Added(form, seen, captured), captured)
    decreases |captured|
  {
    if captured != [] {
      if form(captured[0]) in seen {
        AddedOrder(form, seen, captured[1..]);
        var added := Added(form, seen, captured[1..]);
        AddedLaws(form, seen, captured[1..]);
        if added != [] { assert added[0] in added && form(added[0]) !in seen; }
      } else {
        AddedOrder(form, seen + {form(captured[0])}, captured[1..]);
      }
    }
  }

  lemma {:induction false} NothingAdded(form: string -> string, seen: set<string>, captured: seq<string>)
    requires forall e :: e in captured ==> form(e) in seen
    ensures Added(form, seen, captured) == []
    decreases |captured|
  {
    if captured != [] { NothingAdded(form, seen, captured[1..]); }
  }

  // ----- splitting what was joined -----

  lemma {:induction false} TrimmedConcat(xs: seq<string>, ys: seq<string>)
    ensures Trimmed(xs + ys) == Trimmed(xs) + Trimmed(ys)
  {
    hide TrimSpace;
    if xs == [] {
      assert xs + ys == ys;
    } else {
      assert (xs + ys)[1..] == xs[1..] + ys;
      TrimmedConcat(xs[1..], ys);
    }
  }

  lemma SplitStep(s: string)
    requires s != ""
    ensures var rest := SplitOn(s[1..], ';');
      SplitOn(s, ';') == if s[0] == ';' then [""] + rest else [[s[0]] + rest[0]] + rest[1..]
  {
  }

  lemma {:induction false} SplitPiece(a: string, rest: string)
    ensures SplitOn(a + ";" + rest, ';') == SplitOn(a, ';') + SplitOn(rest, ';')
  {
    hide SplitOn;
    var s := a + ";" + rest;
    SplitStep(s);
    if a == "" {
      assert s == ";" + rest && s[0] == ';' && s[1..] == rest;
      SplitNothing();
    } else {
      assert s[1..] == a[1..] + ";" + rest && s[0] == a[0];
      SplitPiece(a[1..], rest);
      SplitStep(a);
      var p, q := SplitOn(a[1..], ';'), SplitOn(rest, ';');
      assert (p + q)[0] == p[0] && (p + q)[1..] == p[1..] + q;
    }
  }

  lemma SplitNothing()
    ensures SplitOn("", ';') == [""]
  {
  }

  lemma {:induction false} SplitWhole(a: string)
    requires ';' !in a
    ensures SplitOn(a, ';') == [a]
  {
    if a != "" {
      SplitWhole(a[1..]);
      assert [a[0]] + a[1..] == a;
    }
  }

  lemma {:induction false} SplitPieces(s: string)
    ensures forall p :: p in SplitOn(s, ';') ==> ';' !in p
  {
    if s != "" { SplitPieces(s[1..]); }
  }

  lemma {:induction false} SplitSnoc(s: string, c: char)
    requires c != ';'
    ensures
      var r := SplitOn(s, ';');
      var n := |r| - 1;
      SplitOn(s + [c], ';') == r[..n] + [r[n] + [c]]
  {
    hide SplitOn;
    var t := s + [c];
    SplitStep(t);
    if s == "" {
      SplitNothing();
      assert t == [c] && t[1..] == "" && [c] + "" == [c] && "" + [c] == [c];
    } else {
      assert t[1..] == s[1..] + [c] && t[0] == s[0];
      SplitSnoc(s[1..], c);
      SplitStep(s);
      LastGrows(SplitOn(s[1..], ';'), s[0], c);
    }
  }

  /** The last piece grows at its end, the first one at its start. */
  lemma LastGrows(q: seq<string>, a: char, c: char)
    requires q != []
    ensures var m := |q| - 1;
      var after := q[..m] + [q[m] + [c]];
      var r, s := [""] + q, [[a] + q[0]] + q[1..];
      && [""] + after == r[..m + 1] + [r[m + 1] + [c]]
      && [[a] + after[0]] + after[1..] == s[..m] + [s[m] + [c]]
  {
    if |q| == 1 { assert [a] + (q[0] + [c]) == [a] + q[0] + [c]; }
  }

  lemma {:induction false} TrimSnoc(s: string, c: char)
    requires IsSpace(c)
    ensures TrimSpace(s + [c]) == TrimSpace(s)
  {
    TrimLeftSnoc(s, c);
    if TrimLeft(s) != "" {
      var t := TrimLeft(s) + [c];
      assert t[..|t| - 1] == TrimLeft(s);
    }
  }

  /** Blanks around a list do not matter. */
  lemma {:induction false} EntriesTrimLeft(s: string)
    ensures Entries(TrimLeft(s)) == Entries(s)
  {
    hide IsSpace;
    if s != "" && IsSpace(s[0]) {
      EntriesTrimLeft(s[1..]);
      NotSemicolon(s[0]);
      var r := SplitOn(s[1..], ';');
      assert ([s[0]] + r[0])[1..] == r[0];
      assert TrimSpace([s[0]] + r[0]) == TrimSpace(r[0]);
      assert SplitOn(s, ';')[1..] == r[1..];
    }
  }

  lemma NotSemicolon(c: char)
    requires IsSpace(c)
    ensures c != ';'
  {
  }

  lemma {:induction false} EntriesTrimRight(s: string)
    ensures Entries(TrimRight(s)) == Entries(s)
  {
    hide IsSpace, TrimSpace;
    if s != "" && IsSpace(s[|s| - 1]) {
      var t, c := s[..|s| - 1], s[|s| - 1];
      assert s == t + [c];
      EntriesTrimRight(t);
      NotSemicolon(c);
      SplitSnoc(t, c);
      var r := SplitOn(t, ';');
      var n := |r| - 1;
      TrimSnoc(r[n], c);
      TrimmedConcat(r[..n], [r[n]]);
      TrimmedConcat(r[..n], [r[n] + [c]]);
      assert r == r[..n] + [r[n]];
    }
  }

  lemma EntriesTrim(s: string)
    ensures Entries(TrimSpace(s)) == Entries(s)
  {
    EntriesTrimLeft(s);
    EntriesTrimRight(TrimLeft(s));
  }

  lemma {:induction false} TrimRightEnds(s: string)
    ensures
      var r := TrimRight(s);
      r <= s && (r == "" || !IsSpace(r[|r| - 1])) && TrimRight(r) == r
  {
    if s != "" && IsSpace(s[|s| - 1]) { TrimRightEnds(s[..|s| - 1]); }
  }

  lemma {:induction false} TrimLeftEnds(s: string)
    ensures
      var r := TrimLeft(s);
      (r == "" || !IsSpace(r[0])) && forall i :: 0 <= i < |r| ==> r[i] in s
  {
    if s != "" && IsSpace(s[0]) { TrimLeftEnds(s[1..]); }
  }

  /** A trimmed entry is clean: trimming it again changes nothing. */
  lemma TrimTwice(s: string)
    ensures TrimSpace(TrimSpace(s)) == TrimSpace(s)
    ensures forall i :: 0 <= i < |TrimSpace(s)| ==> TrimSpace(s)[i] in s
  {
    TrimLeftEnds(s);
    TrimRightEnds(TrimLeft(s));
  }

  /** An entry of a list. */
  predicate Clean(e: string) { e != "" && TrimSpace(e) == e && ';' !in e }

  lemma {:induction false} TrimmedClean(parts: seq<string>)
    requires forall p :: p in parts ==> ';' !in p
    ensures forall e :: e in Trimmed(parts) ==> Clean(e)
  {
    hide TrimSpace;
    if parts != [] {
      TrimTwice(parts[0]);
      TrimmedClean(parts[1..]);
    }
  }

  lemma EntriesClean(value: string)
    ensures forall e :: e in Entries(value) ==> Clean(e)
  {
    hide Clean;
    SplitPieces(value);
    TrimmedClean(SplitOn(value, ';'));
  }

  lemma {:induction false} CleanTrimmed(es: seq<string>)
    requires forall e :: e in es ==> Clean(e)
    ensures Trimmed(es) == es
  {
    hide TrimSpace;
    if es != [] {
      assert Clean(es[0]);
      CleanTrimmed(es[1..]);
    }
  }

  /** Prepending entries to a list and splitting it again gives the entries and then
      the list. */
  lemma {:induction false} JoinEntries(added: seq<string>, b: string)
    requires forall e :: e in added ==> Clean(e)
    ensures Entries(Join(Trimmed(added + [b]), ";")) == added + Entries(b)
  {
    hide TrimSpace, SplitOn;
    if added == [] {
      assert added + [b] == [b] && [b][1..] == [];
      assert Trimmed([b]) == if TrimSpace(b) != "" then [TrimSpace(b)] else [];
      EntriesTrim(b);
      assert Join(Trimmed([b]), ";") == TrimSpace(b);
      assert added + Entries(b) == Entries(b);
    } else {
      var e := added[0];
      assert Clean(e);
      JoinEntries(added[1..], b);
      assert (added + [b])[1..] == added[1..] + [b];
      var rest := Trimmed(added[1..] + [b]);
      assert Trimmed(added + [b]) == [e] + rest;
      SplitWhole(e);
      assert Trimmed([e]) == [e] by { assert [e][1..] == []; }
      if rest == [] {
        RestEmpty(added[1..], b);
        assert Join([e], ";") == e;
      } else {
        assert ([e] + rest)[1..] == rest;
        assert Join([e] + rest, ";") == e + ";" + Join(rest, ";");
        SplitPiece(e, Join(rest, ";"));
        TrimmedConcat([e], SplitOn(Join(rest, ";"), ';'));
      }
    }
  }

  lemma RestEmpty(added: seq<string>, b: string)
    requires Trimmed(added + [b]) == [] && forall e :: e in added ==> Clean(e)
    ensures added == [] && Entries(b) == []
  {
    hide TrimSpace, SplitOn;
    CleanTrimmed(added);
    TrimmedConcat(added, [b]);
    assert [b][1..] == [];
    assert TrimSpace(b) == "";
    EntriesTrim(b);
    SplitWhole("");
    TrimTwice(b);
  }

  /** A joined list is split at the separator of the system. */
  lemma JoinSplits(windows: bool, entries: seq<string>)
    requires Trimmed(entries) != [] && forall e :: e in Trimmed(entries) ==> (if windows then ';' else ':') !in e
    ensures SplitOn(Join(Trimmed(entries), Separator(windows)), if windows then ';' else ':') == Trimmed(entries)
  {
    hide SplitOn, Join, Trimmed;
    var parts := Trimmed(entries);
    assert forall i :: 0 <= i < |parts| ==> parts[i] in parts;
    JoinBack(parts, if windows then ';' else ':');
  }
}
