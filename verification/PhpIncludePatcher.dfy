/** patchPHPInclude as it runs: two loops over the spans, then one edit. */
module PhpIncludePatcher {
  import opened Text
  import opened PhpLexer
  import opened PhpTokens
  import opened PhpSplice
  import opened PhpArrayPatch
  import opened PhpIncludeBlock
  import opened PhpInclude
  import opened PhpIncludeRuns
  import opened PhpScanner
  import opened PhpSpans

  // ----- the markers -----

  function CountText(cs: seq<Token>, t: string): nat {
    if cs == [] then 0 else CountText(cs[..|cs| - 1], t) + if cs[|cs| - 1].text == t then 1 else 0
  }

  /** Comments with a text are the comment pieces with it. */
  lemma {:induction false} CountComments(ps: seq<Piece>, t: string)
    ensures CountText(CommentSpans(ps), t) == CountPiece(ps, Marker(t))
    decreases |ps|
  {
    hide Flatten;
    if ps != [] {
      var n := |ps| - 1;
      CountComments(ps[..n], t);
      assert ps == ps[..n] + [ps[n]];
      CountPieces(ps[..n], [ps[n]], Marker(t));
      CountSingle(ps[n], Marker(t));
      var cs := CommentSpans(ps);
      if ps[n].kind == Comment { assert cs[..|cs| - 1] == CommentSpans(ps[..n]); } else { assert cs == CommentSpans(ps[..n]); }
    }
  }

  /** The only occurrence is the first one. */
  lemma UniqueFirst(ps: seq<Piece>, p: Piece, i: nat)
    requires i < |ps| && ps[i] == p && CountPiece(ps, p) <= 1
    ensures FirstPiece(ps, p) == i && CountPiece(ps, p) == 1
  {
    hide CountPiece, FirstPiece;
    assert ps == ps[..i] + ([p] + ps[i + 1..]);
    CountPieces(ps[..i], [p] + ps[i + 1..], p);
    CountPieces([p], ps[i + 1..], p);
    CountSingle(p, p);
    FirstBehind(ps[..i], p, [p] + ps[i + 1..]);
    FirstHere(p, ps[i + 1..]);
  }

  /** What a marker's variable holds after some comments. */
  ghost predicate Seen(cs: seq<Token>, k: nat, t: string, c: Option<Token>)
    requires k <= |cs|
  {
    match c
    case None => CountText(cs[..k], t) == 0
    case Some(token) => CountText(cs[..k], t) == 1 && token in cs[..k] && token.text == t
  }

  lemma SeenStep(cs: seq<Token>, k: nat, t: string, c: Option<Token>)
    requires k < |cs| && Seen(cs, k, t, c)
    ensures cs[k].text != t ==> Seen(cs, k + 1, t, c)
    ensures cs[k].text == t && c.None? ==> Seen(cs, k + 1, t, Some(cs[k]))
    ensures cs[k].text == t && c.Some? ==> CountText(cs[..k + 1], t) > 1
  {
    assert cs[..k + 1][..k] == cs[..k] && cs[..k + 1][k] == cs[k];
  }

  lemma {:induction false} CountGrows(cs: seq<Token>, k: nat, t: string)
    requires k <= |cs|
    ensures CountText(cs[..k], t) <= CountText(cs, t)
    decreases |cs| - k
  {
    if k < |cs| {
      assert cs[..k + 1][..k] == cs[..k];
      CountGrows(cs, k + 1, t);
    } else {
      assert cs[..k] == cs;
    }
  }

  /** The loop over the comments: the marker comments, or a duplicate. */
  method MarkerComments(comments: seq<Token>, startMarker: string, endMarker: string) returns (r: Result<(Option<Token>, Option<Token>), PhpError>)
    requires startMarker != endMarker
    ensures r.Ok? <==> CountText(comments, startMarker) <= 1 && CountText(comments, endMarker) <= 1
    ensures r.Err? ==> r.error == DuplicateMarker
    ensures r.Ok? ==> Seen(comments, |comments|, startMarker, r.value.0) && Seen(comments, |comments|, endMarker, r.value.1)
  {
    hide Seen, CountText;
    var start: Option<Token>, end: Option<Token> := None, None;
    var k := 0;
    SeenNothing(comments, startMarker);
    SeenNothing(comments, endMarker);
    while k < |comments|
      invariant k <= |comments| && Seen(comments, k, startMarker, start) && Seen(comments, k, endMarker, end)
    {
      var comment := comments[k];
      SeenStep(comments, k, startMarker, start);
      SeenStep(comments, k, endMarker, end);
      if comment.text == startMarker {
        if start.Some? {
          CountGrows(comments, k + 1, startMarker);
          return Err(DuplicateMarker);
        }
        start := Some(comment);
      } else if comment.text == endMarker {
        if end.Some? {
          CountGrows(comments, k + 1, endMarker);
          return Err(DuplicateMarker);
        }
        end := Some(comment);
      }
      k := k + 1;
    }
    SeenAll(comments, startMarker, start);
    SeenAll(comments, endMarker, end);
    return Ok((start, end));
  }

  lemma SeenNothing(cs: seq<Token>, t: string)
    ensures Seen(cs, 0, t, None)
  {
  }

  lemma SeenAll(cs: seq<Token>, t: string, c: Option<Token>)
    requires Seen(cs, |cs|, t, c)
    ensures CountText(cs, t) <= 1
  {
    assert cs[..|cs|] == cs;
  }

  /** Which piece a marker comment is. */
  lemma SeenPiece(ps: seq<Piece>, t: string, c: Option<Token>)
    requires Seen(CommentSpans(ps), |CommentSpans(ps)|, t, c)
    ensures CountPiece(ps, Marker(t)) <= 1
    ensures var i := FirstPiece(ps, Marker(t));
      if c.None? then i == |ps| else i < |ps| && c.value == Spanned(ps[i], Off(ps, i))
  {
    hide Flatten, CountPiece, FirstPiece, CountText, CommentSpans;
    var cs := CommentSpans(ps);
    assert cs[..|cs|] == cs;
    CountComments(ps, t);
    FirstAt(ps, Marker(t));
    if c.Some? {
      var k :| 0 <= k < |cs| && cs[k] == c.value;
      var i := CommentAt(ps, k);
      assert ps[i] == Marker(t);
      UniqueFirst(ps, Marker(t), i);
    }
  }

  // ----- the end of the last section -----

  function TagPosition(tokens: seq<Token>, len: nat): nat {
    if tokens == [] then len
    else
      var t := tokens[|tokens| - 1];
      if t.kind == Open then len else if t.kind == Close then t.start else TagPosition(tokens[..|tokens| - 1], len)
  }

  lemma {:induction false} TagSection(ps: seq<Piece>, len: nat)
    ensures TagPosition(TokenSpans(ps), len) == if SectionEnd(ps) == |ps| then len else Off(ps, SectionEnd(ps))
    decreases |ps|
  {
    hide Flatten, TagPosition, SectionEnd, TokenSpans;
    if ps == [] {
      NoTags(len);
    } else {
      var n := |ps| - 1;
      var q, p := ps[..n], ps[n];
      assert ps == q + [p];
      TagSection(q, len);
      SpansOne(q, p);
      if IsToken(p) { TagOne(TokenSpans(q), Spanned(p, |Flatten(q)|), len); }
      SectionOne(q, p);
      var t := SectionEnd(q);
      assert q[..t] == ps[..t] && ps[..n] == q;
    }
  }

  lemma NoTags(len: nat)
    ensures TagPosition(TokenSpans([]), len) == len && SectionEnd([]) == 0
  {
  }

  lemma SpansOne(q: seq<Piece>, p: Piece)
    ensures TokenSpans(q + [p]) == if IsToken(p) then TokenSpans(q) + [Spanned(p, |Flatten(q)|)] else TokenSpans(q)
  {
  }

  lemma TagOne(tokens: seq<Token>, t: Token, len: nat)
    ensures TagPosition(tokens + [t], len) == if t.kind == Open then len else if t.kind == Close then t.start else TagPosition(tokens, len)
  {
  }

  lemma SectionOne(q: seq<Piece>, p: Piece)
    ensures SectionEnd(q + [p]) ==
      if p.kind == Open then |q| + 1 else if p.kind == Close then |q| else if SectionEnd(q) == |q| then |q| + 1 else SectionEnd(q)
  {
  }

  /** The loop over the tokens. */
  method LastPosition(tokens: seq<Token>, len: nat) returns (position: nat)
    ensures position == TagPosition(tokens, len)
  {
    position := len;
    var k := 0;
    while k < |tokens|
      invariant k <= |tokens| && position == TagPosition(tokens[..k], len)
    {
      assert tokens[..k + 1][..k] == tokens[..k];
      if tokens[k].kind == Open { position := len; }
      if tokens[k].kind == Close { position := tokens[k].start; }
      k := k + 1;
    }
    assert tokens[..k] == tokens;
  }

  // ----- the method -----

  /** The end marker does not run up to the start marker. */
  lemma MarkersApart(src: string, ps: seq<Piece>, a: nat, b: nat, marker: string)
    requires Scan(src, false) == Ok(ps) && b < a < |ps| && ps[a] == Marker(StartMarker(marker)) && ps[b] == Marker(EndMarker(marker))
    ensures Off(ps, b) + |EndMarker(marker)| < Off(ps, a)
  {
    hide Scan, Flatten, StartMarker, EndMarker;
    PieceText(src, ps, b);
    MarkerHeads(marker);
    if b + 1 == a {
      AfterLine(src, ps, b);
      FlattenMarker(ps, a);
      assert false;
    }
    PieceText(src, ps, b + 1);
    OffMonotone(ps, b + 2, a);
  }

  lemma MarkerHeads(marker: string)
    ensures "// " <= StartMarker(marker) && "// " <= EndMarker(marker) && StartMarker(marker) != EndMarker(marker)
  {
  }

  /** The offsets between which the markers' block stands, if there is one. */
  function MarkedSpan(ps: seq<Piece>, marker: string): Result<Option<(nat, nat)>, PhpError> {
    var found := FindMarkers(ps, marker);
    if found.Err? then Err(found.error)
    else if found.value.NoMarkers? then Ok(None)
    else Ok(Some((Off(ps, found.value.a), Off(ps, found.value.b + 1))))
  }

  /** The marker checks: where the block stands, if there is one. */
  method FindBlock(comments: seq<Token>, marker: string, ghost src: string, ghost ps: seq<Piece>) returns (r: Result<Option<(nat, nat)>, PhpError>)
    requires Scan(src, false) == Ok(ps) && comments == CommentSpans(ps)
    ensures r == MarkedSpan(ps, marker)
  {
    hide Scan, Flatten, StartMarker, EndMarker, CountPiece, FirstPiece, CommentSpans, Seen, CountText, Off;
    var startMarker, endMarker := StartMarker(marker), EndMarker(marker);
    MarkerHeads(marker);
    CountComments(ps, startMarker);
    CountComments(ps, endMarker);
    var found := MarkerComments(comments, startMarker, endMarker);
    if found.Err? { return Err(found.error); }
    var start, end := found.value.0, found.value.1;
    SeenPiece(ps, startMarker, start);
    SeenPiece(ps, endMarker, end);
    if start.None? && end.None? { return Ok(None); }
    if start.None? || end.None? { return Err(IncompleteMarkers); }
    MarkerOrder(src, ps, FirstPiece(ps, Marker(startMarker)), FirstPiece(ps, Marker(endMarker)), marker);
    if end.value.end < start.value.start { return Err(IncompleteMarkers); }
    OffNext(ps, FirstPiece(ps, Marker(endMarker)));
    return Ok(Some((start.value.start, end.value.end)));
  }

  /** The block goes in at position. */
  method PutBlock(src: string, position: nat, text: string, eol: string) returns (out: string)
    requires position <= |src|
    ensures out == AddBlock(src, position, text, eol)
  {
    var block := text;
    if position > 0 && src[position - 1] != '\n' { block := eol + block; }
    Assembled(src, position, text, eol);
    return src[..position] + block + eol + src[position..];
  }

  /** patchPHPInclude */
  method PatchIncludeIn(source: string, included: string, marker: string) returns (r: Result<string, PhpError>)
    ensures r == PatchInclude(source, included, marker)
  {
    hide Parse, Scan, Flatten, IncludeBlock, SectionEnd, TokenSpans, CommentSpans, EOL, TagPosition, FindMarkers, Off, AddBlock, AllSpace, Located;
    var src := source;
    var doc := ScanPHP(src);
    if doc.Err? { return Err(doc.error); }
    ghost var d := Parse(src).value;
    ghost var ps := AllPieces(d);
    ParseScan(src);
    var found := FindBlock(doc.value.comments, marker, src, ps);
    if found.Err? { return Err(found.error); }
    var eol := EOL(src);
    var block := IncludeBlock(included, marker, eol);
    SectionPosition(source, d);
    var position := LastPosition(doc.value.tokens, |src|);
    if found.value.Some? {
      var start, end := found.value.value.0, found.value.value.1;
      ghost var m := FindMarkers(ps, marker).value;
      MarkedBounds(src, d, m.a, m.b);
      if AllSpace(src[end..position]) { return Ok(src[..start] + block + src[end..]); }
      PastBreakBounds(src, end, position, eol);
      if eol <= src[end..] { end := end + |eol|; }
      src := src[..start] + src[end..];
      position := position - (end - start);
    }
    var out := PutBlock(src, position, block, eol);
    return Ok(out);
  }

  lemma SectionPosition(src: string, d: Doc)
    requires Parse(src) == Ok(d)
    ensures var ps := AllPieces(d);
      TagPosition(TokenSpans(ps), |src|) == Off(ps, SectionEnd(ps)) <= |src|
  {
    hide Parse, Scan, Flatten, SectionEnd, TokenSpans, TagPosition;
    var ps := AllPieces(d);
    ParseScan(src);
    TagSection(ps, |src|);
    OffBounds(src, d, SectionEnd(ps));
    OffEnd(src, ps);
  }

  lemma Assembled(src: string, position: nat, block: string, eol: string)
    requires position <= |src|
    ensures src[..position] + (Lead(src, position, eol) + block) + eol + src[position..] == AddBlock(src, position, block, eol)
    ensures "" + block == block
  {
  }

  lemma OffEnd(src: string, ps: seq<Piece>)
    requires Flatten(ps) == src
    ensures Off(ps, |ps|) == |src|
  {
    assert ps[..|ps|] == ps;
  }

  lemma OffNext(ps: seq<Piece>, b: nat)
    requires b < |ps|
    ensures Off(ps, b + 1) == Off(ps, b) + |ps[b].text|
  {
    assert ps[..b + 1] == ps[..b] + [ps[b]];
    FlattenConcat(ps[..b], [ps[b]]);
    FlattenOne(ps[b]);
  }

  lemma MarkerOrder(src: string, ps: seq<Piece>, a: nat, b: nat, marker: string)
    requires Scan(src, false) == Ok(ps) && a < |ps| && b < |ps| && ps[a] == Marker(StartMarker(marker)) && ps[b] == Marker(EndMarker(marker))
    ensures Off(ps, b) + |EndMarker(marker)| < Off(ps, a) <==> b < a
  {
    hide Scan, Flatten, StartMarker, EndMarker;
    MarkerHeads(marker);
    if b < a { MarkersApart(src, ps, a, b, marker); } else { PieceOrder(src, ps, a, b); }
  }
}
