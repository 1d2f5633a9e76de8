/** patchPHPInclude: the managed block and where it goes. */
module PhpInclude {
  import opened Text
  import opened PhpLexer
  import opened PhpTokens
  import opened PhpSplice
  import opened PhpEntries
  import opened PhpArrayPatch
  import opened PhpIncludeBlock
  import PhpConstants
  import PhpConstantText

  // ----- the function -----

  function Marker(t: string): Piece { Piece(Comment, t) }

  function CountPiece(ps: seq<Piece>, p: Piece): nat {
    if ps == [] then 0 else (if ps[0] == p then 1 else 0) + CountPiece(ps[1..], p)
  }

  /** The first occurrence of p, or the length of ps. */
  function FirstPiece(ps: seq<Piece>, p: Piece): (n: nat)
    ensures n <= |ps|
    ensures n < |ps| ==> ps[n] == p
  {
    if ps == [] || ps[0] == p then 0 else 1 + FirstPiece(ps[1..], p)
  }

  datatype Markers = NoMarkers | Marked(a: nat, b: nat)

  /** The marker comments, refused when they are duplicated, incomplete or out of
      order. */
  function FindMarkers(ps: seq<Piece>, marker: string): (r: Result<Markers, PhpError>)
    ensures r.Ok? && r.value.Marked? ==> r.value.a <= r.value.b < |ps| && ps[r.value.a] == Marker(StartMarker(marker)) && ps[r.value.b] == Marker(EndMarker(marker))
  {
    var s, e := Marker(StartMarker(marker)), Marker(EndMarker(marker));
    var a, b := FirstPiece(ps, s), FirstPiece(ps, e);
    if CountPiece(ps, s) > 1 || CountPiece(ps, e) > 1 then Err(DuplicateMarker)
    else if a == |ps| && b == |ps| then Ok(NoMarkers)
    else if a == |ps| || b == |ps| || b < a then Err(IncompleteMarkers)
    else Ok(Marked(a, b))
  }

  lemma {:induction false} FirstIs(ps: seq<Piece>, p: Piece)
    ensures forall i :: 0 <= i < FirstPiece(ps, p) ==> ps[i] != p
    ensures FirstPiece(ps, p) == |ps| <==> p !in ps
  {
    if ps != [] && ps[0] != p { FirstIs(ps[1..], p); }
  }

  predicate Twice(ps: seq<Piece>, p: Piece) { exists i, j :: 0 <= i < j < |ps| && ps[i] == p && ps[j] == p }

  lemma {:induction false} CountIs(ps: seq<Piece>, p: Piece)
    ensures CountPiece(ps, p) > 0 <==> p in ps
    ensures CountPiece(ps, p) > 1 <==> Twice(ps, p)
  {
    if ps != [] {
      var rest := ps[1..];
      CountIs(rest, p);
      if ps[0] == p && p in rest {
        var j :| 0 <= j < |rest| && rest[j] == p;
        assert ps[0] == p && ps[j + 1] == p;
      }
      if i, j :| 0 <= i < j < |rest| && rest[i] == p && rest[j] == p { assert ps[i + 1] == p && ps[j + 1] == p; }
      if i, j :| 0 <= i < j < |ps| && ps[i] == p && ps[j] == p {
        assert rest[j - 1] == p;
        if i > 0 { assert rest[i - 1] == p; }
      }
    }
  }

  /** There are no markers if neither comment is there, and a block if each is there
      once and in order; one that is there twice is a duplicate, and everything else is
      incomplete. */
  lemma MarkersExactly(ps: seq<Piece>, marker: string)
    ensures var s, e, r := Piece(Comment, "// <polka:" + marker + ">"), Piece(Comment, "// </polka:" + marker + ">"), FindMarkers(ps, marker);
      && (r == Ok(NoMarkers) <==> s !in ps && e !in ps)
      && (forall a: nat, b: nat :: r == Ok(Marked(a, b)) <==> a < b < |ps| && ps[a] == s && ps[b] == e && !Twice(ps, s) && !Twice(ps, e))
      && (r == Err(DuplicateMarker) <==> Twice(ps, s) || Twice(ps, e))
      && (r.Err? ==> r.error == DuplicateMarker || r.error == IncompleteMarkers)
  {
    var s, e := Marker(StartMarker(marker)), Marker(EndMarker(marker));
    hide StartMarker, EndMarker, CountPiece, FirstPiece, Twice;
    FirstIs(ps, s);
    FirstIs(ps, e);
    CountIs(ps, s);
    CountIs(ps, e);
    MarkersDiffer(marker);
    forall a: nat, b: nat | a < b < |ps| && ps[a] == s && ps[b] == e && !Twice(ps, s) && !Twice(ps, e)
      ensures FirstPiece(ps, s) == a && FirstPiece(ps, e) == b
    {
      OnlyOne(ps, s, a);
      OnlyOne(ps, e, b);
    }
  }

  lemma MarkersDiffer(marker: string)
    ensures StartMarker(marker) == "// <polka:" + marker + ">" && EndMarker(marker) == "// </polka:" + marker + ">"
    ensures StartMarker(marker) != EndMarker(marker)
  {
    assert StartMarker(marker)[4] != EndMarker(marker)[4];
  }

  lemma OnlyOne(ps: seq<Piece>, p: Piece, a: nat)
    requires a < |ps| && ps[a] == p && !Twice(ps, p)
    ensures FirstPiece(ps, p) == a
  {
    hide FirstPiece;
    FirstIs(ps, p);
    assert p in ps;
    var n := FirstPiece(ps, p);
    assert ps[n] == p;
  }

  predicate IsTag(p: Piece) { p.kind == Open || p.kind == Close }

  /** Where the last PHP section ends: before the last closing tag, unless PHP code
      is opened after it. */
  function SectionEnd(ps: seq<Piece>): (n: nat)
    ensures n <= |ps|
  {
    if ps == [] then 0
    else
      var k := |ps| - 1;
      if ps[k].kind == Open then |ps|
      else if ps[k].kind == Close then k
      else
        var n := SectionEnd(ps[..k]);
        if n == k then |ps| else n
  }

  function Off(ps: seq<Piece>, k: nat): nat
    requires k <= |ps|
  {
    |Flatten(ps[..k])|
  }

  function Lead(src: string, pos: nat, eol: string): (r: string)
    requires pos <= |src|
    ensures r == "" || r == eol
  {
    if pos > 0 && src[pos - 1] != '\n' then eol else ""
  }

  function AddBlock(src: string, pos: nat, block: string, eol: string): string
    requires pos <= |src|
  {
    src[..pos] + (Lead(src, pos, eol) + block + eol) + src[pos..]
  }

  /** What is left when the block and its line break are taken out. */
  function PastBreak(src: string, end: nat, eol: string): (r: nat)
    requires end <= |src|
    ensures end <= r <= |src|
  {
    if eol <= src[end..] then end + |eol| else end
  }

  /** patchPHPInclude */
  function PatchInclude(src: string, included: string, marker: string): Result<string, PhpError> {
    match Parse(src)
    case Err(e) => Err(e)
    case Ok(d) =>
      var ps, eol := AllPieces(d), EOL(src);
      var block := IncludeBlock(included, marker, eol);
      match FindMarkers(ps, marker)
      case Err(e) => Err(e)
      case Ok(NoMarkers) =>
        OffBounds(src, d, SectionEnd(ps));
        Ok(AddBlock(src, Off(ps, SectionEnd(ps)), block, eol))
      case Ok(Marked(a, b)) =>
        MarkedBounds(src, d, a, b);
        var start, end, position := Off(ps, a), Off(ps, b + 1), Off(ps, SectionEnd(ps));
        if AllSpace(src[end..position]) then Ok(src[..start] + block + src[end..])
        else
          var end' := PastBreak(src, end, eol);
          PastBreakBounds(src, end, position, eol);
          Ok(AddBlock(src[..start] + src[end'..], position - (end' - start), block, eol))
  }

  lemma OffBounds(src: string, d: Doc, k: nat)
    requires Parse(src) == Ok(d) && k <= |AllPieces(d)|
    ensures Off(AllPieces(d), k) <= |src|
    ensures src[..Off(AllPieces(d), k)] == Flatten(AllPieces(d)[..k]) && src[Off(AllPieces(d), k)..] == Flatten(AllPieces(d)[k..])
  {
    hide Parse, Flatten;
    ParseScan(src);
    SplitScan(src, AllPieces(d), k);
  }

  /** A line break that is followed by something other than spaces fits in. */
  lemma PastBreakBounds(src: string, end: nat, position: nat, eol: string)
    requires end <= position <= |src| && !AllSpace(src[end..position]) && AllBlank(eol)
    ensures PastBreak(src, end, eol) <= position
  {
  }

  // ----- sections -----

  /** The last tag is the opening tag at i. */
  predicate LastOpen(ps: seq<Piece>, i: int) {
    0 <= i < |ps| && ps[i].kind == Open && forall j :: i < j < |ps| ==> !IsTag(ps[j])
  }

  /** Behind the end of the last section there is nothing, or a closing tag and no
      tag after it. */
  lemma {:induction false} SectionShape(ps: seq<Piece>)
    ensures var t := SectionEnd(ps);
      && (t < |ps| ==> ps[t].kind == Close && forall i :: t < i < |ps| ==> !IsTag(ps[i]))
      && (t == |ps| ==> (exists i :: LastOpen(ps, i)) || forall i :: 0 <= i < |ps| ==> !IsTag(ps[i]))
    decreases |ps|
  {
    if ps != [] {
      var k := |ps| - 1;
      if !IsTag(ps[k]) {
        SectionShape(ps[..k]);
        assert forall i :: 0 <= i < k ==> ps[..k][i] == ps[i];
        if i :| LastOpen(ps[..k], i) {
          assert LastOpen(ps, i);
        }
      } else if ps[k].kind == Open {
        assert LastOpen(ps, k);
      }
    }
  }

  lemma {:induction false} NoTagMode(ps: seq<Piece>, php: bool)
    requires forall i :: 0 <= i < |ps| ==> !IsTag(ps[i])
    ensures ModeAfter(ps, php) == php
  {
    if ps != [] { NoTagMode(ps[1..], php); }
  }

  lemma {:induction false} NoTagSection(z: seq<Piece>, w: seq<Piece>)
    requires forall i :: 0 <= i < |w| ==> !IsTag(w[i])
    ensures SectionEnd(z + w) == if SectionEnd(z) == |z| then |z + w| else SectionEnd(z)
    decreases |w|
  {
    if w == [] {
      assert z + w == z;
    } else {
      var k := |w| - 1;
      assert (z + w)[..|z + w| - 1] == z + w[..k];
      NoTagSection(z, w[..k]);
    }
  }

  lemma ModeSplit(ps: seq<Piece>, k: nat, php: bool)
    requires k <= |ps|
    ensures ModeAfter(ps, php) == ModeAfter(ps[k..], ModeAfter(ps[..k], php))
  {
    assert ps == ps[..k] + ps[k..];
    ModeConcat(ps[..k], ps[k..], php);
  }

  /** A section that ends the source goes on in PHP mode to the end. */
  lemma SectionModeEnd(ps: seq<Piece>)
    requires ModeAfter(ps, false)
    ensures SectionEnd(ps) == |ps|
  {
    SectionShape(ps);
    var t := SectionEnd(ps);
    if t < |ps| {
      ModeSplit(ps, t, false);
      assert ps[t..][0] == ps[t] && forall i :: 0 < i < |ps[t..]| ==> ps[t..][i] == ps[t + i];
      NoTagMode(ps[t..][1..], false);
    }
  }

  /** Where a run ends that is followed by the rest of a source from its section
      end on. */
  lemma SectionOf(z: seq<Piece>, w: seq<Piece>)
    requires ModeAfter(z, false)
    requires w != [] ==> w[0].kind == Close && forall i :: 0 < i < |w| ==> !IsTag(w[i])
    ensures SectionEnd(z + w) == |z|
  {
    if w == [] {
      assert z + w == z;
      SectionModeEnd(z);
    } else {
      assert z + w == (z + [w[0]]) + w[1..];
      assert (z + [w[0]])[..|z|] == z;
      NoTagSection(z + [w[0]], w[1..]);
    }
  }

  lemma HtmlOnly(src: string, ps: seq<Piece>)
    requires Scan(src, false) == Ok(ps) && forall i :: 0 <= i < |ps| ==> !IsTag(ps[i])
    ensures Bare(ps) == []
  {
  }

  /** The last section ends in PHP mode. */
  lemma SectionMode(src: string, ps: seq<Piece>)
    requires Scan(src, false) == Ok(ps) && Bare(ps) != []
    ensures var t := SectionEnd(ps);
      && ModeAfter(ps[..t], false)
      && (t < |ps| ==> ps[t].kind == Close && forall i :: t < i < |ps| ==> !IsTag(ps[i]))
  {
    hide Scan, Lex, Flatten, Bare;
    SectionShape(ps);
    var t := SectionEnd(ps);
    if t < |ps| {
      LexedAt(src, ps, t);
      LexMode(Flatten(ps[t..]), ModeAfter(ps[..t], false));
    } else if i :| LastOpen(ps, i) {
      ModeSplit(ps, i, false);
      assert forall j :: 0 < j < |ps[i..]| ==> ps[i..][j] == ps[i + j];
      NoTagMode(ps[i..][1..], true);
      assert ps[..t] == ps;
    } else {
      HtmlOnly(src, ps);
    }
  }

  lemma CommentMode(src: string, ps: seq<Piece>, i: nat)
    requires Scan(src, false) == Ok(ps) && i < |ps| && ps[i].kind == Comment
    ensures ModeAfter(ps[..i], false) && ModeAfter(ps[..i + 1], false)
  {
    hide Scan, Lex, Flatten;
    LexedAt(src, ps, i);
    LexMode(Flatten(ps[i..]), ModeAfter(ps[..i], false));
    assert ps[..i + 1] == ps[..i] + [ps[i]];
    ModeConcat(ps[..i], [ps[i]], false);
    ModeOne(ps[i], true);
  }

  /** Comments stand before the end of the last section. */
  lemma CommentBefore(src: string, ps: seq<Piece>, i: nat)
    requires Scan(src, false) == Ok(ps) && i < |ps| && ps[i].kind == Comment
    ensures i < SectionEnd(ps)
  {
    hide Scan, Lex, Flatten;
    SectionShape(ps);
    var t := SectionEnd(ps);
    CommentMode(src, ps, i);
    if t < i {
      ModeSplit(ps[..i], t, false);
      var w := ps[..i][t..];
      assert w[0] == ps[t] && forall j :: 0 < j < |w| ==> w[j] == ps[t + j];
      assert ps[..i][..t] == ps[..t];
      NoTagMode(w[1..], false);
    }
  }

  lemma OffMonotone(ps: seq<Piece>, j: nat, k: nat)
    requires j <= k <= |ps|
    ensures Off(ps, j) <= Off(ps, k)
    ensures Flatten(ps[..k]) == Flatten(ps[..j]) + Flatten(ps[j..k])
  {
    assert ps[..k] == ps[..j] + ps[j..k];
    FlattenConcat(ps[..j], ps[j..k]);
  }

  lemma MarkedBounds(src: string, d: Doc, a: nat, b: nat)
    requires Parse(src) == Ok(d) && a <= b < |AllPieces(d)| && AllPieces(d)[b].kind == Comment
    ensures var ps := AllPieces(d);
      b < SectionEnd(ps) && Off(ps, a) <= Off(ps, b + 1) <= Off(ps, SectionEnd(ps)) <= |src|
  {
    hide Parse, Scan, Flatten, SectionEnd;
    ParseScan(src);
    var ps := AllPieces(d);
    CommentBefore(src, ps, b);
    OffMonotone(ps, a, b + 1);
    OffMonotone(ps, b + 1, SectionEnd(ps));
    OffBounds(src, d, SectionEnd(ps));
  }

  // ----- parsing, on pieces -----

  lemma {:induction false} GroupBare(gap: seq<Piece>, ps: seq<Piece>)
    ensures var ls, xs := Group(gap, ps).lexemes, Bare(ps);
      |ls| == |xs| && forall i :: 0 <= i < |ls| ==> ls[i].token == xs[i].token
    decreases |ps|
  {
    if ps != [] { GroupBare(if IsToken(ps[0]) then [] else gap + [ps[0]], ps[1..]); }
  }

  lemma {:induction false} SameRun(stack: seq<string>, ls: seq<Lexeme>, xs: seq<Lexeme>)
    requires |ls| == |xs| && forall i :: 0 <= i < |ls| ==> ls[i].token == xs[i].token
    ensures Run(stack, ls) == Run(stack, xs)
    decreases |ls|
  {
    if ls != [] && Feed(stack, ls[0].Txt()).Some? { SameRun(Feed(stack, ls[0].Txt()).value, ls[1..], xs[1..]); }
  }

  /** A scan is a parse when it has tokens and its brackets are balanced. */
  lemma ParsePieces(src: string, ps: seq<Piece>)
    requires Scan(src, false) == Ok(ps)
    ensures Parse(src).Ok? <==> Bare(ps) != [] && Balanced(Bare(ps))
    ensures Parse(src).Ok? ==> AllPieces(Parse(src).value) == ps
  {
    hide Scan;
    GroupBare([], ps);
    var ls := Group([], ps).lexemes;
    SameRun([], ls, Bare(ps));
    CheckIsBalanced(ls);
    GroupPieces([], ps);
    assert [] + ps == ps;
  }

  // ----- the three edits -----

  lemma LastPieceAt(src: string, ps: seq<Piece>, t: nat)
    requires Scan(src, false) == Ok(ps) && t <= |ps| && ModeAfter(ps[..t], false)
    ensures t > 0
    ensures var p := ps[t - 1]; p.kind != Html && p.text != "" && (p.text[|p.text| - 1] == '\n' ==> p.kind == Blank)
  {
    hide Scan, Lex, Flatten;
    assert ps[..0] == [];
    var p := ps[t - 1];
    var m := ModeAfter(ps[..t - 1], false);
    assert ps[..t] == ps[..t - 1] + [p];
    ModeConcat(ps[..t - 1], [p], false);
    ModeOne(p, m);
    LexedAt(src, ps, t - 1);
    LexMode(Flatten(ps[t - 1..]), m);
    if p.kind == Comment {
      LexComment(Flatten(ps[t - 1..]), m);
    } else if IsToken(p) {
      PhpConstants.LexTokenEnd(Flatten(ps[t - 1..]), m);
    }
  }

  /** In PHP mode, what ends in a line break is a blank. */
  lemma LastBefore(src: string, ps: seq<Piece>, t: nat)
    requires Scan(src, false) == Ok(ps) && t <= |ps| && ModeAfter(ps[..t], false)
    ensures t > 0 && 0 < Off(ps, t) <= |src| && ps[t - 1].kind != Html
    ensures src[Off(ps, t) - 1] == '\n' ==> ps[t - 1].kind == Blank
  {
    hide Scan, Lex, Flatten, ModeAfter;
    LastPieceAt(src, ps, t);
    var p := ps[t - 1];
    assert ps[..t] == ps[..t - 1] + [p];
    FlattenConcat(ps[..t - 1], [p]);
    FlattenOne(p);
    SplitScan(src, ps, t);
    assert src[Off(ps, t) - 1] == p.text[|p.text| - 1];
  }

  /** Adding the block in PHP code, at the end of the source or before `?>`. */
  lemma AddScan(src: string, ps: seq<Piece>, t: nat, included: string, marker: string, eol: string)
    requires Scan(src, false) == Ok(ps) && t <= |ps| && ModeAfter(ps[..t], false) && ValidMarker(marker)
    requires AllBlank(eol) && eol != "" && (eol[0] == '\n' || eol[0] == '\r')
    ensures Off(ps, t) <= |src|
    ensures var lead := Lead(src, Off(ps, t), eol);
      && Scan(AddBlock(src, Off(ps, t), IncludeBlock(included, marker, eol), eol), false)
        == Ok((ps[..t] + Blanks(lead)) + BlockPieces(included, marker, eol) + (Blanks(eol) + ps[t..]))
      && (lead == "" ==> t > 0 && ps[t - 1].kind == Blank)
  {
    hide Scan, Lex, Flatten, Reads, BlockPieces, IncludeBlock, Safe, Follows, Blanks, Lead, ModeAfter, Off;
    LastBefore(src, ps, t);
    var lead := Lead(src, Off(ps, t), eol);
    var block := IncludeBlock(included, marker, eol);
    var mid, text := Blanks(lead) + (BlockPieces(included, marker, eol) + Blanks(eol)), lead + (block + eol);
    ReadsAround(lead, included, marker, eol, Flatten(ps[t..]));
    LeadFollows(src, ps, t, eol, block + eol);
    SpliceIn(src, ps, t, t, mid, text);
    assert lead + block + eol == text;
    Regroup(ps[..t], Blanks(lead), BlockPieces(included, marker, eol), Blanks(eol), ps[t..]);
  }

  lemma LeadFollows(src: string, ps: seq<Piece>, t: nat, eol: string, added: string)
    requires Scan(src, false) == Ok(ps) && 0 < t <= |ps| && 0 < Off(ps, t) <= |src| && ps[t - 1].kind != Html
    requires src[Off(ps, t) - 1] == '\n' ==> ps[t - 1].kind == Blank
    requires eol != "" && (eol[0] == '\n' || eol[0] == '\r')
    ensures Follows(ps[..t], Lead(src, Off(ps, t), eol) + added + Flatten(ps[t..]))
    ensures Lead(src, Off(ps, t), eol) == "" ==> ps[t - 1].kind == Blank
  {
    hide Scan, Flatten, Safe, Follows, Lead, Off;
    var lead, r := Lead(src, Off(ps, t), eol), Flatten(ps[t..]);
    PrefixOf(lead, added, r);
    LeadSafe(src, ps, t, eol, lead + added + r);
    SafeFollows(ps[..t], lead + added + r);
  }

  lemma PrefixOf(a: string, b: string, c: string)
    ensures a <= a + b + c
  {
  }

  /** Pieces that the text reads as take the place of those from a to b. */
  lemma SpliceIn(src: string, ps: seq<Piece>, a: nat, b: nat, mid: seq<Piece>, text: string)
    requires Scan(src, false) == Ok(ps) && a <= b <= |ps| && ModeAfter(ps[..a], false) && ModeAfter(ps[..b], false)
    requires Reads(mid, text, Flatten(ps[b..])) && Follows(ps[..a], text + Flatten(ps[b..]))
    ensures Off(ps, a) <= Off(ps, b) <= |src|
    ensures Scan(src[..Off(ps, a)] + text + src[Off(ps, b)..], false) == Ok(ps[..a] + mid + ps[b..])
  {
    hide Scan, Lex, Flatten, Follows, Lexes, ModeAfter;
    SplitScan(src, ps, a);
    SplitScan(src, ps, b);
    OffMonotone(ps, a, b);
    Splice(src, ps, a, b, mid);
  }

  lemma Regroup<T>(a: seq<T>, b: seq<T>, c: seq<T>, d: seq<T>, e: seq<T>)
    ensures a + (b + (c + d)) + e == (a + b) + c + (d + e)
  {
  }

  lemma LeadSafe(src: string, ps: seq<Piece>, t: nat, eol: string, r: string)
    requires Scan(src, false) == Ok(ps) && 0 < t <= |ps| && 0 < Off(ps, t) <= |src| && ps[t - 1].kind != Html
    requires src[Off(ps, t) - 1] == '\n' ==> ps[t - 1].kind == Blank
    requires eol != "" && (eol[0] == '\n' || eol[0] == '\r') && Lead(src, Off(ps, t), eol) <= r
    ensures Safe(ps[t - 1], r)
    ensures Lead(src, Off(ps, t), eol) == "" ==> ps[t - 1].kind == Blank
  {
    hide Scan, Flatten, Safe;
    if Lead(src, Off(ps, t), eol) == "" {
      assert ps == ps[..t] + ps[t..];
      PhpConstantText.BlankSafe(src, ps[..t], ps[t..], r);
    } else {
      SafeLine(ps[t - 1], r);
    }
  }

  lemma ReadsAround(lead: string, included: string, marker: string, eol: string, r: string)
    requires AllBlank(lead) && ValidMarker(marker) && AllBlank(eol) && eol != "" && (eol[0] == '\n' || eol[0] == '\r')
    ensures Reads(Blanks(lead) + (BlockPieces(included, marker, eol) + Blanks(eol)), lead + (IncludeBlock(included, marker, eol) + eol), r)
  {
    hide Reads, BlockPieces, IncludeBlock, Blanks;
    var block := IncludeBlock(included, marker, eol);
    ReadsBlanks(eol, r);
    ReadsBlock(included, marker, eol, eol + r);
    ReadsConcat(BlockPieces(included, marker, eol), block, Blanks(eol), eol, r);
    ReadsBlanks(lead, block + eol + r);
    ReadsConcat(Blanks(lead), lead, BlockPieces(included, marker, eol) + Blanks(eol), block + eol, r);
  }

  /** What may follow a piece depends on two characters. */
  lemma LookTwo(p: Piece, r: string, r': string)
    requires Look(p, r) && |r| >= 2 && |r'| >= 2 && r[..2] == r'[..2] && r[0] == '/'
    ensures Safe(p, r')
  {
  }

  /** Rewriting the block in place. */
  lemma ReplaceScan(src: string, ps: seq<Piece>, a: nat, b: nat, included: string, marker: string, eol: string)
    requires Scan(src, false) == Ok(ps) && a <= b < |ps| && ps[a] == Marker(StartMarker(marker)) && ps[b] == Marker(EndMarker(marker))
    requires ValidMarker(marker) && AllBlank(eol) && eol != "" && (eol[0] == '\n' || eol[0] == '\r')
    ensures Off(ps, a) <= Off(ps, b + 1) <= |src|
    ensures Scan(src[..Off(ps, a)] + IncludeBlock(included, marker, eol) + src[Off(ps, b + 1)..], false)
      == Ok(ps[..a] + BlockPieces(included, marker, eol) + ps[b + 1..])
  {
    hide Scan, Lex, Flatten, BlockPieces, Safe, Blanks, StartMarker, EndMarker, Lexes, ModeAfter, Off, Reads, IncludeBlock, EndsLine;
    CommentMode(src, ps, a);
    CommentMode(src, ps, b);
    MarkerText(marker);
    var r := Flatten(ps[b + 1..]);
    AfterLine(src, ps, b);
    ReadsBlock(included, marker, eol, r);
    if a > 0 { BlockSafe(src, ps, a, included, marker, eol, r); }
    SafeFollows(ps[..a], IncludeBlock(included, marker, eol) + r);
    SpliceIn(src, ps, a, b + 1, BlockPieces(included, marker, eol), IncludeBlock(included, marker, eol));
  }

  /** What may stand before the old block may stand before the new one. */
  lemma BlockSafe(src: string, ps: seq<Piece>, a: nat, included: string, marker: string, eol: string, r: string)
    requires Scan(src, false) == Ok(ps) && 0 < a < |ps| && "// " <= ps[a].text
    ensures Safe(ps[a - 1], IncludeBlock(included, marker, eol) + r)
  {
    hide Scan, Lex, Flatten, Safe, Look, IncludeBlock;
    BeforeMarker(src, ps, a);
    FlattenMarker(ps, a);
    BlockHead(included, marker, eol);
    var t := IncludeBlock(included, marker, eol);
    assert (t + r)[..2] == t[..2];
    LookTwo(ps[a - 1], Flatten(ps[a..]), t + r);
  }

  lemma AfterLine(src: string, ps: seq<Piece>, b: nat)
    requires Scan(src, false) == Ok(ps) && b < |ps| && ps[b].kind == Comment && "// " <= ps[b].text
    ensures EndsLine(Flatten(ps[b + 1..]))
  {
    hide Scan, Lex, Flatten, ModeAfter;
    BeforeMarker(src, ps, b + 1);
    assert ps[b].text[1] == '/';
  }

  /** Every piece of a scan may be followed by what follows it. */
  lemma BeforeMarker(src: string, ps: seq<Piece>, a: nat)
    requires Scan(src, false) == Ok(ps) && 0 < a <= |ps|
    ensures Look(ps[a - 1], Flatten(ps[a..]))
  {
    hide Scan, Lex, Flatten, Look, ModeAfter;
    LexedAt(src, ps, a - 1);
    assert ps[a - 1..] == [ps[a - 1]] + ps[a..];
    FlattenConcat([ps[a - 1]], ps[a..]);
    FlattenOne(ps[a - 1]);
    LexLook(ps[a - 1], ModeAfter(ps[..a - 1], false), Flatten(ps[a..]));
  }

  lemma FlattenMarker(ps: seq<Piece>, a: nat)
    requires a < |ps| && "// " <= ps[a].text
    ensures |Flatten(ps[a..])| >= 2 && Flatten(ps[a..])[..2] == "//" && Flatten(ps[a..])[0] == '/'
  {
  }

  lemma BlockHead(included: string, marker: string, eol: string)
    ensures var t := IncludeBlock(included, marker, eol); |t| >= 2 && t[..2] == "//"
  {
  }

  /** Taking out a stretch of PHP code when what is behind it may follow what is
      before it. */
  lemma RemoveScan(src: string, ps: seq<Piece>, a: nat, e: nat)
    requires Scan(src, false) == Ok(ps) && a <= e <= |ps| && Follows(ps[..a], Flatten(ps[e..]))
    requires ModeAfter(ps[..a], false) && ModeAfter(ps[..e], false)
    ensures Off(ps, a) <= Off(ps, e) <= |src|
    ensures Scan(src[..Off(ps, a)] + src[Off(ps, e)..], false) == Ok(ps[..a] + ps[e..])
  {
    hide Scan, Lex, Flatten, ModeAfter, Off, Reads, Follows;
    NoPieces(ModeAfter(ps[..a], false), Flatten(ps[e..]));
    assert "" + Flatten(ps[e..]) == Flatten(ps[e..]);
    SpliceIn(src, ps, a, e, [], "");
    assert ps[..a] + [] + ps[e..] == ps[..a] + ps[e..];
    assert src[..Off(ps, a)] + "" + src[Off(ps, e)..] == src[..Off(ps, a)] + src[Off(ps, e)..];
  }

  /** Anything may follow a blank or the opening tag. */
  lemma OpenOrBlank(src: string, ps: seq<Piece>, a: nat, r: string)
    requires Scan(src, false) == Ok(ps) && 0 < a <= |ps| && (ps[a - 1].kind == Blank || ps[a - 1].kind == Open)
    ensures Follows(ps[..a], r)
  {
    hide Scan, Flatten, ModeAfter;
    LexedAt(src, ps, a - 1);
    LexMode(Flatten(ps[a - 1..]), ModeAfter(ps[..a - 1], false));
  }

  lemma NoPieces(php: bool, r: string)
    ensures Lexes([], php, r) && Flatten([]) == "" && ModeAfter([], php) == php && Reads([], "", r)
  {
  }
}
