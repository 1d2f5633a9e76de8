/** What the spans of a scan promise: they lie in the source in order, do not
    overlap, and leave out nothing but blanks and HTML. */
module PhpSpans {
  import opened Text
  import opened PhpLexer
  import opened PhpTokens
  import opened PhpSplice
  import opened PhpArrayPatch
  import opened PhpInclude
  import opened PhpScanner

  /** t is the span of piece i. */
  predicate SpanAt(ps: seq<Piece>, t: Token, i: nat) {
    i < |ps| && t == Spanned(ps[i], Off(ps, i))
  }

  /** Tokens come from token pieces, in order. */
  lemma {:induction false} TokenAt(ps: seq<Piece>, k: nat) returns (i: nat)
    requires k < |TokenSpans(ps)|
    ensures SpanAt(ps, TokenSpans(ps)[k], i) && IsToken(ps[i]) && k == |TokenSpans(ps[..i])|
    decreases |ps|
  {
    hide Flatten, IsToken;
    var n := |ps| - 1;
    if k < |TokenSpans(ps[..n])| {
      i := TokenAt(ps[..n], k);
      assert ps[..n][..i] == ps[..i];
    } else {
      i := n;
    }
  }

  lemma {:induction false} CommentAt(ps: seq<Piece>, k: nat) returns (i: nat)
    requires k < |CommentSpans(ps)|
    ensures SpanAt(ps, CommentSpans(ps)[k], i) && ps[i].kind == Comment && k == |CommentSpans(ps[..i])|
    decreases |ps|
  {
    hide Flatten;
    var n := |ps| - 1;
    if k < |CommentSpans(ps[..n])| {
      i := CommentAt(ps[..n], k);
      assert ps[..n][..i] == ps[..i];
    } else {
      i := n;
    }
  }

  lemma {:induction false} TokensGrow(ps: seq<Piece>, i: nat, j: nat)
    requires i <= j <= |ps|
    ensures |TokenSpans(ps[..i])| <= |TokenSpans(ps[..j])| && |CommentSpans(ps[..i])| <= |CommentSpans(ps[..j])|
    decreases j
  {
    if i < j {
      TokensGrow(ps, i, j - 1);
      assert ps[..j][..j - 1] == ps[..j - 1];
    }
  }

  /** Every token and comment piece has its span. */
  lemma {:induction false} SpanListed(ps: seq<Piece>, i: nat)
    requires i < |ps|
    ensures IsToken(ps[i]) ==> Spanned(ps[i], Off(ps, i)) in TokenSpans(ps)
    ensures ps[i].kind == Comment ==> Spanned(ps[i], Off(ps, i)) in CommentSpans(ps)
    decreases |ps|
  {
    hide Flatten, IsToken;
    var n := |ps| - 1;
    if i < n {
      SpanListed(ps[..n], i);
      assert ps[..n][..i] == ps[..i];
    }
  }

  /** Piece i is the source between its offsets. */
  lemma PieceText(src: string, ps: seq<Piece>, i: nat)
    requires Scan(src, false) == Ok(ps) && i < |ps|
    ensures Off(ps, i) < Off(ps, i + 1) == Off(ps, i) + |ps[i].text| <= |src| && src[Off(ps, i)..Off(ps, i + 1)] == ps[i].text
  {
    hide Scan, Flatten, Lex, ModeAfter;
    SplitScan(src, ps, i);
    SplitScan(src, ps, i + 1);
    assert ps[..i + 1] == ps[..i] + [ps[i]];
    FlattenConcat(ps[..i], [ps[i]]);
    FlattenOne(ps[i]);
    LexedAt(src, ps, i);
    var f := Flatten(ps[..i + 1]);
    assert src[..Off(ps, i + 1)] == f;
  }

  lemma PieceOrder(src: string, ps: seq<Piece>, i: nat, j: nat)
    requires Scan(src, false) == Ok(ps) && i < j < |ps|
    ensures Off(ps, i) + |ps[i].text| <= Off(ps, j)
  {
    hide Scan, Flatten;
    PieceText(src, ps, i);
    OffMonotone(ps, i + 1, j);
  }

  predicate InSource(src: string, t: Token) {
    t.start < t.end <= |src| && src[t.start..t.end] == t.text
  }

  /** Spans follow one another without overlap. */
  predicate Ordered(ts: seq<Token>) {
    forall i, j :: 0 <= i < j < |ts| ==> ts[i].end <= ts[j].start
  }

  /** The spans of tokens and comments are stretches of the source, in strict order,
      and no token overlaps a comment. */
  lemma SpansSound(src: string)
    requires Parse(src).Ok?
    ensures var ps := AllPieces(Parse(src).value);
      var tokens, comments := TokenSpans(ps), CommentSpans(ps);
      && (forall k :: 0 <= k < |tokens| ==> InSource(src, tokens[k])) && (forall k :: 0 <= k < |comments| ==> InSource(src, comments[k]))
      && Ordered(tokens) && Ordered(comments)
      && forall k, l :: 0 <= k < |tokens| && 0 <= l < |comments| ==> tokens[k].end <= comments[l].start || comments[l].end <= tokens[k].start
  {
    hide Parse, Scan, Flatten, TokenSpans, CommentSpans, IsToken;
    ParseScan(src);
    var ps := AllPieces(Parse(src).value);
    var tokens, comments := TokenSpans(ps), CommentSpans(ps);
    forall k | 0 <= k < |tokens|
      ensures InSource(src, tokens[k])
    {
      var i := TokenAt(ps, k);
      PieceText(src, ps, i);
    }
    forall k | 0 <= k < |comments|
      ensures InSource(src, comments[k])
    {
      var i := CommentAt(ps, k);
      PieceText(src, ps, i);
    }
    forall k, l | 0 <= k < l < |tokens|
      ensures tokens[k].end <= tokens[l].start
    {
      var i := TokenAt(ps, k);
      var j := TokenAt(ps, l);
      if j <= i { TokensGrow(ps, j, i); }
      PieceOrder(src, ps, i, j);
    }
    forall k, l | 0 <= k < l < |comments|
      ensures comments[k].end <= comments[l].start
    {
      var i := CommentAt(ps, k);
      var j := CommentAt(ps, l);
      if j <= i { TokensGrow(ps, j, i); }
      PieceOrder(src, ps, i, j);
    }
    forall k, l | 0 <= k < |tokens| && 0 <= l < |comments|
      ensures tokens[k].end <= comments[l].start || comments[l].end <= tokens[k].start
    {
      var i := TokenAt(ps, k);
      var j := CommentAt(ps, l);
      assert IsToken(ps[i]) && !IsToken(ps[j]) by { CommentIsNoToken(ps[j]); }
      if i < j { PieceOrder(src, ps, i, j); } else { PieceOrder(src, ps, j, i); }
    }
  }

  lemma CommentIsNoToken(p: Piece)
    requires p.kind == Comment
    ensures !IsToken(p)
  {
  }

  /** Position k lies in a piece of the source that is read in PHP mode. */
  predicate InPhpAt(ps: seq<Piece>, k: nat, i: nat) {
    i < |ps| && Off(ps, i) <= k < Off(ps, i) + |ps[i].text| && ModeAfter(ps[..i], false)
  }

  /** In PHP code nothing but blanks lies outside the spans. */
  lemma SpansCover(src: string, k: nat, i: nat)
    requires Parse(src).Ok? && k < |src|
    requires InPhpAt(AllPieces(Parse(src).value), k, i)
    ensures var ps := AllPieces(Parse(src).value);
      || IsBlank(src[k])
      || (exists t :: t in TokenSpans(ps) && t.start <= k < t.end)
      || (exists t :: t in CommentSpans(ps) && t.start <= k < t.end)
  {
    hide Parse, Scan, Flatten, TokenSpans, CommentSpans, Lex, ModeAfter;
    ParseScan(src);
    var ps := AllPieces(Parse(src).value);
    PieceText(src, ps, i);
    LexedAt(src, ps, i);
    LexMode(Flatten(ps[i..]), true);
    SpanListed(ps, i);
    var t := Spanned(ps[i], Off(ps, i));
    assert src[k] == ps[i].text[k - Off(ps, i)];
    assert t.start <= k < t.end;
  }
}
