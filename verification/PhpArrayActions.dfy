/** A whole php-array action: patchPHPArrayValue folded over the declared paths. */
module PhpArrayActions {
  import opened Text
  import opened PhpLexer
  import opened PhpTokens
  import opened PhpScalars
  import opened PhpArray
  import opened PhpArrayLens
  import opened PhpArrayLaws

  /** One declared value: where it goes and the literal to be written. */
  datatype Write = Write(path: seq<string>, value: string)

  /** The writes one after the other, each on the result of the one before. */
  function PatchAll(src: string, ws: seq<Write>): Result<string, PhpError> {
    if ws == [] then Ok(src)
    else
      match PatchAll(src, ws[..|ws| - 1])
      case Err(e) => Err(e)
      case Ok(s) => PatchArray(s, ws[|ws| - 1].path, ws[|ws| - 1].value)
  }

  /** No path is another one or leads through another one. */
  predicate PrefixFree(ws: seq<Write>) {
    forall i, j :: 0 <= i < j < |ws| ==> Diverge(ws[i].path, ws[j].path)
  }

  predicate AllLiteral(ws: seq<Write>) {
    forall i :: 0 <= i < |ws| ==> IsLiteral(ws[i].value)
  }

  predicate AllPlaceable(src: string, ws: seq<Write>) {
    forall i :: 0 <= i < |ws| ==> Placeable(src, ws[i].path)
  }

  predicate Apart(q: seq<string>, ws: seq<Write>) {
    forall i :: 0 <= i < |ws| ==> Diverge(ws[i].path, q)
  }

  lemma DivergeSym(p: seq<string>, q: seq<string>)
    requires Diverge(p, q)
    ensures Diverge(q, p)
  {
  }

  lemma SameReadPlaceable(src: string, src': string, q: seq<string>)
    requires Read(src, q) == Read(src', q)
    ensures Placeable(src, q) == Placeable(src', q) && ReadText(src, q) == ReadText(src', q)
  {
  }

  lemma Prefix(src: string, ws: seq<Write>)
    requires ws != [] && PrefixFree(ws) && AllLiteral(ws) && AllPlaceable(src, ws)
    ensures var n := |ws| - 1;
      PrefixFree(ws[..n]) && AllLiteral(ws[..n]) && AllPlaceable(src, ws[..n]) && Apart(ws[n].path, ws[..n])
  {
    hide Diverge, IsLiteral, Placeable;
    var n := |ws| - 1;
    assert forall i :: 0 <= i < n ==> ws[..n][i] == ws[i];
  }

  /** Every path that parts from all written ones reads the same tokens as before. */
  lemma {:induction false} ActionFrame(src: string, ws: seq<Write>, q: seq<string>)
    requires PatchAll(src, ws).Ok? && PrefixFree(ws) && AllLiteral(ws) && AllPlaceable(src, ws) && Apart(q, ws)
    ensures Read(PatchAll(src, ws).value, q) == Read(src, q)
    decreases |ws|
  {
    hide Read, PatchArray, Placeable, IsLiteral, Diverge, ReadText;
    if ws != [] {
      var n := |ws| - 1;
      Prefix(src, ws);
      assert Apart(q, ws[..n]) by { assert forall i :: 0 <= i < n ==> ws[..n][i] == ws[i]; }
      ActionFrame(src, ws[..n], q);
      ActionFrame(src, ws[..n], ws[n].path);
      var s := PatchAll(src, ws[..n]).value;
      SameReadPlaceable(src, s, ws[n].path);
      PatchReads(s, ws[n].path, ws[n].value, q);
    }
  }

  /** After the action every declared path reads back its own value. */
  lemma {:induction false} ActionReads(src: string, ws: seq<Write>, i: nat)
    requires PatchAll(src, ws).Ok? && PrefixFree(ws) && AllLiteral(ws) && AllPlaceable(src, ws) && i < |ws|
    ensures ReadText(PatchAll(src, ws).value, ws[i].path) == Some(ws[i].value)
    decreases |ws|
  {
    hide Read, PatchArray, Placeable, IsLiteral, Diverge, ReadText;
    var n := |ws| - 1;
    Prefix(src, ws);
    var s := PatchAll(src, ws[..n]).value;
    ActionFrame(src, ws[..n], ws[n].path);
    SameReadPlaceable(src, s, ws[n].path);
    if i < n {
      ActionReads(src, ws[..n], i);
      assert ws[..n][i] == ws[i];
      DivergeSym(ws[i].path, ws[n].path);
      PatchReads(s, ws[n].path, ws[n].value, ws[i].path);
      SameReadPlaceable(s, PatchAll(src, ws).value, ws[i].path);
    } else {
      PatchReads(s, ws[n].path, ws[n].value, ws[n].path);
    }
  }

  lemma {:induction false} ActionSame(src: string, ws: seq<Write>)
    requires forall i :: 0 <= i < |ws| ==> ws[i].path != [] && ReadText(src, ws[i].path) == Some(ws[i].value)
    ensures PatchAll(src, ws) == Ok(src)
    decreases |ws|
  {
    hide Read, PatchArray, ReadText;
    if ws != [] {
      var n := |ws| - 1;
      assert forall i :: 0 <= i < n ==> ws[..n][i] == ws[i];
      ActionSame(src, ws[..n]);
      PatchSame(src, ws[n].path, ws[n].value);
    }
  }

  lemma {:induction false} PathsNonempty(src: string, ws: seq<Write>)
    requires PatchAll(src, ws).Ok?
    ensures forall i :: 0 <= i < |ws| ==> ws[i].path != []
    decreases |ws|
  {
    hide Parse, Read, ReplaceText, InsertText, Returned;
    if ws != [] {
      var n := |ws| - 1;
      PathsNonempty(src, ws[..n]);
      assert forall i :: 0 <= i < n ==> ws[..n][i] == ws[i];
    }
  }

  /** Running the action a second time returns the file unchanged. */
  lemma ActionIdempotent(src: string, ws: seq<Write>)
    requires PatchAll(src, ws).Ok? && PrefixFree(ws) && AllLiteral(ws) && AllPlaceable(src, ws)
    ensures PatchAll(PatchAll(src, ws).value, ws) == PatchAll(src, ws)
  {
    hide Read, PatchArray, Placeable, IsLiteral, Diverge, ReadText, PatchAll;
    var out := PatchAll(src, ws).value;
    forall i | 0 <= i < |ws|
      ensures ReadText(out, ws[i].path) == Some(ws[i].value)
    {
      ActionReads(src, ws, i);
    }
    PathsNonempty(src, ws);
    ActionSame(out, ws);
  }

  /** The order of two writes that do not meet makes no difference to any path that
      parts from both, nor to the two paths themselves. */
  lemma WritesCommute(src: string, v: Write, w: Write, q: seq<string>)
    requires PatchAll(src, [v, w]).Ok? && PatchAll(src, [w, v]).Ok? && Diverge(v.path, w.path)
    requires IsLiteral(v.value) && IsLiteral(w.value) && Placeable(src, v.path) && Placeable(src, w.path)
    requires q == v.path || q == w.path || (Diverge(v.path, q) && Diverge(w.path, q))
    ensures ReadText(PatchAll(src, [v, w]).value, q) == ReadText(PatchAll(src, [w, v]).value, q)
  {
    hide Read, PatchArray, Placeable, IsLiteral, Diverge, ReadText, PatchAll;
    DivergeSym(v.path, w.path);
    assert PrefixFree([v, w]) && PrefixFree([w, v]);
    if q == v.path {
      ActionReads(src, [v, w], 0);
      ActionReads(src, [w, v], 1);
    } else if q == w.path {
      ActionReads(src, [v, w], 1);
      ActionReads(src, [w, v], 0);
    } else {
      assert Apart(q, [v, w]) && Apart(q, [w, v]);
      ActionFrame(src, [v, w], q);
      ActionFrame(src, [w, v], q);
      SameReadPlaceable(src, PatchAll(src, [v, w]).value, q);
      SameReadPlaceable(src, PatchAll(src, [w, v]).value, q);
    }
  }
}
