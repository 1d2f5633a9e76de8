/** Exactly when a value cannot be overwritten safely.

    A line comment ends before `?>`.  When the first token of a value is a `?>`
    that ends a line comment, the text written in its place lands inside the
    comment.  `WritableExactly` states that this is the only way to lose a value. */
module PhpArraySwallow {
  import opened Text
  import opened PhpLexer
  import opened PhpTokens
  import opened PhpLiterals
  import opened PhpSplice
  import opened PhpScalars
  import opened PhpArray
  import opened PhpArrayPatch
  import opened PhpArrayLens
  import opened PhpArrayLaws

  lemma SafeComment(q: Piece, r: string, r': string)
    requires Look(q, r) && r != "" && r' != "" && r[0] == r'[0] && (r[0] == '#' || r[0] == '/')
    ensures Safe(q, r') || q.kind == Html
  {
  }

  /** A line comment grows over text that has neither a break nor `?>` at its head. */
  lemma {:induction false} LineLengthGrows(t: string, r: string, x: string)
    requires LineLength(t + r) == |t| && x != "" && x[0] != '\n' && x[0] != '\r' && x[0] != '?' && x[0] != '>'
    ensures LineLength(t + x) > |t|
  {
    if t == "" {
      assert t + x == x;
    } else {
      assert (t + r)[1..] == t[1..] + r && (t + x)[1..] == t[1..] + x;
      LineLengthGrows(t[1..], r, x);
      assert !("?>" <= t + x) by {
        if |t| == 1 { assert (t + x)[1] == x[0]; }
      }
    }
  }

  /** The comment piece grows with it. */
  lemma CommentGrows(p: Piece, r: string, x: string)
    requires p.text != "" && IsLineComment(p) && LexPhp(p.text + r) == Ok(p)
    requires x != "" && x[0] != '\n' && x[0] != '\r' && x[0] != '?' && x[0] != '>' && x[0] != '/' && x[0] != '*'
    ensures LexPhp(p.text + x).Ok? && |LexPhp(p.text + x).value.text| > |p.text|
  {
    var s, s' := p.text + r, p.text + x;
    assert s[0] == s'[0];
    if s[0] != '#' {
      CommentHead(s);
      assert s'[1] == p.text[1] == s[1];
    }
    LineLengthGrows(p.text, r, x);
  }

  lemma FlattenMonotone(ps: seq<Piece>, j: nat, k: nat)
    requires j <= k <= |ps|
    ensures |Flatten(ps[..j])| <= |Flatten(ps[..k])|
  {
    assert ps[..k] == ps[..j] + ps[j..k];
    FlattenConcat(ps[..j], ps[j..k]);
  }

  /** No piece of the edited source starts where the comment used to end. */
  lemma NoBoundary(src: string, pre0: seq<Piece>, p: Piece, post: seq<Piece>, x: string, ps': seq<Piece>, k: nat)
    requires Scan(src, false) == Ok(pre0 + [p] + post) && IsLineComment(p) && ModeAfter(pre0, false)
    requires x != "" && x[0] == '\''
    requires Scan(Flatten(pre0) + (p.text + x), false) == Ok(ps') && k <= |ps'|
    ensures |Flatten(ps'[..k])| != |Flatten(pre0)| + |p.text|
  {
    hide Lex, Scan, Lexes, Flatten, ModeAfter, LexPhp, Look, Safe;
    var ps := pre0 + [p] + post;
    var n := |pre0|;
    SplitScan(src, ps, n);
    assert ps[..n] == pre0 && ps[n..] == [p] + post && ps[n + 1..] == post;
    LexedAt(src, ps, n);
    FlattenConcat([p], post);
    FlattenOne(p);
    var r, r' := p.text + Flatten(post), p.text + x;
    LexIsPhp(r);
    LexComment(r, true);
    LexIsPhp(r');
    CommentGrows(p, Flatten(post), x);
    assert Lexes(pre0, false, r') by {
      if n > 0 {
        LastLook(pre0, false, r);
        SafeComment(pre0[n - 1], r, r');
        LastMode(pre0, false, r);
        SafeFollows(pre0, r');
        LexesMove(pre0, false, r, r');
      } else {
        assert pre0 == [];
        EmptyLexes(r');
      }
    }
    LexesScan(pre0, false, r');
    var p' := LexPhp(r').value;
    ScanHead(r', p');
    var rest := Scan(r', true).value;
    assert ps' == pre0 + rest && rest[0] == p';
    if k <= n {
      FlattenMonotone(ps', k, n);
      assert ps'[..n] == pre0;
    } else {
      FlattenMonotone(ps', n + 1, k);
      assert ps'[..n + 1] == pre0 + [p'];
      FlattenConcat(pre0, [p']);
      FlattenOne(p');
    }
  }

  lemma EmptyLexes(r: string)
    ensures Lexes([], false, r)
  {
  }

  lemma ScanHead(s: string, p: Piece)
    requires s != "" && Lex(s, true) == Ok(p) && Scan(s, true).Ok?
    ensures Scan(s, true).value != [] && Scan(s, true).value[0] == p
  {
  }

  lemma {:induction false} LastLook(ps: seq<Piece>, php: bool, r: string)
    requires ps != [] && Lexes(ps, php, r)
    ensures Look(ps[|ps| - 1], r)
  {
    hide Lex, Look;
    if |ps| == 1 {
      FlattenOne(ps[0]);
      assert ps == [ps[0]];
      LexLook(ps[0], php, r);
    } else {
      LastLook(ps[1..], After(ps[0], php), r);
    }
  }

  /** A run that ends in PHP mode does not end in HTML text. */
  lemma {:induction false} LastMode(ps: seq<Piece>, php: bool, r: string)
    requires ps != [] && Lexes(ps, php, r) && ModeAfter(ps, php)
    ensures ps[|ps| - 1].kind != Html
  {
    hide Lex;
    LexMode(Flatten(ps) + r, php);
    if |ps| == 1 {
      assert ps[1..] == [];
    } else {
      LastMode(ps[1..], After(ps[0], php), r);
    }
  }

  /** What is quoted to make a string longer than the source. */
  function Long(n: nat): string {
    seq(n, i => 'a')
  }

  lemma {:induction false} LongQuoted(n: nat)
    ensures SingleQuoted(Long(n)) == "'" + Long(n) + "'"
  {
    EscapedIs(Long(n));
    LongEscaped(n);
  }

  lemma {:induction false} LongEscaped(n: nat)
    ensures Escaped(Long(n)) == Long(n)
  {
    if n > 0 {
      assert Long(n)[1..] == Long(n - 1);
      LongEscaped(n - 1);
      assert Long(n) == "a" + Long(n - 1);
    }
  }

  /** A long quoted string occurs in x + w + y at |x| only. */
  lemma OccursOnce(x: string, w: string, y: string, n: nat, o: nat)
    requires w == "'" + Long(n) + "'" && |x| + |y| < n
    requires o + |w| <= |x + w + y| && o != |x|
    ensures (x + w + y)[o..o + |w|] != w
  {
    var s := x + w + y;
    var t := s[o..o + |w|];
    if o < |x| {
      var j := |x| - o;
      assert t[j] == s[|x|] == w[0] == '\'';
      assert w[j] == 'a';
    } else {
      var j := o - |x|;
      assert t[0] == s[|x| + j] == w[j] == 'a';
      assert w[0] == '\'';
    }
  }

  /** A value whose first token ends a line comment cannot be overwritten by a
      long string. */
  lemma SwallowedLost(src: string, path: seq<string>)
    requires path != [] && Read(src, path).Value? && !Placeable(src, path)
    ensures var w := SingleQuoted(Long(|src| + 1));
      PatchArray(src, path, w).Ok? && ReadText(PatchArray(src, path, w).value, path) != Some(w)
  {
    hide Parse, Returned, Lookup, Focus, ParseArray, Start, End, Read, ReadText, SingleQuoted, Swallowed;
    var w := SingleQuoted(Long(|src| + 1));
    if Parse(src).Err? || Returned(Parse(src).value.lexemes).Err? { NotArrayFirst(src, path); }
    var d := Parse(src).value;
    var (s, e) := Returned(d.lexemes).value;
    ValueInDoc(src, d, s, e, path);
    var val := Read(src, path).tokens;
    var i := s + Focus(d.lexemes[s..e], path);
    ValueOffsets(src, d, i, |val|);
    assert d.lexemes[i] == val[0] by { assert d.lexemes[i..i + |val|][0] == d.lexemes[i]; }
    NotOpen(src, d, i);
    LostAt(src, d, i, src[End(d.lexemes, i + |val| - 1)..], path);
  }

  lemma LostAt(src: string, d: Doc, i: nat, y: string, path: seq<string>)
    requires Parse(src) == Ok(d) && i < |d.lexemes| && d.lexemes[i].token.kind != Open && Swallowed(d.lexemes[i])
    requires path != [] && Start(d.lexemes, i) + |y| <= |src|
    ensures var w := SingleQuoted(Long(|src| + 1));
      ReadText(src[..Start(d.lexemes, i)] + w + y, path) != Some(w)
  {
    hide Parse, Start, ReadText, SingleQuoted, Swallowed, Scan, Flatten;
    var w, x := SingleQuoted(Long(|src| + 1)), src[..Start(d.lexemes, i)];
    var src' := x + w + y;
    if ReadText(src', path) == Some(w) {
      var o, k, ps' := ReadOffset(src', path, w);
      LostPiece(src, d, i, |src| + 1, y, o, k, ps');
    }
  }

  /** The long string, written where a comment ends, is not a piece of its own. */
  lemma LostPiece(src: string, d: Doc, i: nat, n: nat, y: string, o: nat, k: nat, ps': seq<Piece>)
    requires Parse(src) == Ok(d) && i < |d.lexemes| && d.lexemes[i].token.kind != Open && Swallowed(d.lexemes[i])
    requires Start(d.lexemes, i) <= |src| && Start(d.lexemes, i) + |y| < n
    requires Scan(src[..Start(d.lexemes, i)] + SingleQuoted(Long(n)) + y, false) == Ok(ps') && k <= |ps'| && |Flatten(ps'[..k])| == o
    ensures var w := SingleQuoted(Long(n));
      var s := src[..Start(d.lexemes, i)] + w + y;
      o + |w| <= |s| ==> s[o..o + |w|] != w
  {
    hide Parse, Start, SingleQuoted, Swallowed, Scan, Flatten;
    var w, x := SingleQuoted(Long(n)), src[..Start(d.lexemes, i)];
    LongQuoted(n);
    assert x + w + y == x + (w + y);
    SwallowedBoundary(src, d, i, w + y, ps', k);
    if o + |w| <= |x + w + y| { OccursOnce(x, w, y, n, o); }
  }

  /** A value that is read starts at a piece of the scan. */
  lemma ReadOffset(src: string, path: seq<string>, w: string) returns (o: nat, k: nat, ps: seq<Piece>)
    requires path != [] && ReadText(src, path) == Some(w)
    ensures o + |w| <= |src| && src[o..o + |w|] == w
    ensures Scan(src, false) == Ok(ps) && k <= |ps| && |Flatten(ps[..k])| == o
  {
    hide Parse, Returned, Lookup, Focus, ParseArray, Pieces, Flatten, Read, ValueText, Start, End, AllPieces;
    if Parse(src).Err? || Returned(Parse(src).value.lexemes).Err? { NotArrayFirst(src, path); }
    var d := Parse(src).value;
    var (s, e) := Returned(d.lexemes).value;
    ValueInDoc(src, d, s, e, path);
    var val := Read(src, path).tokens;
    var i := s + Focus(d.lexemes[s..e], path);
    ValueOffsets(src, d, i, |val|);
    assert d.lexemes[i..i + |val|] == val;
    o := Start(d.lexemes, i);
    ps := AllPieces(d);
    k := PieceOffset(src, d, i);
  }

  lemma SwallowedBoundary(src: string, d: Doc, i: nat, x: string, ps': seq<Piece>, k: nat)
    requires Parse(src) == Ok(d) && i < |d.lexemes| && d.lexemes[i].token.kind != Open && Swallowed(d.lexemes[i])
    requires x != "" && x[0] == '\'' && Start(d.lexemes, i) <= |src|
    requires Scan(src[..Start(d.lexemes, i)] + x, false) == Ok(ps') && k <= |ps'|
    ensures |Flatten(ps'[..k])| != Start(d.lexemes, i)
  {
    hide Parse, Pieces, Flatten, ModeAfter, Scan, Lex;
    var ls := d.lexemes;
    var gap := ls[i].gap;
    var p, g0 := gap[|gap| - 1], gap[..|gap| - 1];
    var pre0 := Before(d, i, |gap| - 1);
    var post := [ls[i].token] + Pieces(ls[i + 1..]) + d.tail;
    ParseScan(src);
    Offsets(src, d, i);
    CutInGap(src, d, i, |gap| - 1);
    assert gap == g0 + [p];
    assert AllPieces(d) == pre0 + [p] + post;
    assert Pieces(ls[..i]) + gap == pre0 + [p];
    FlattenConcat(pre0, [p]);
    FlattenOne(p);
    assert src[..Start(ls, i)] + x == Flatten(pre0) + (p.text + x);
    NoBoundary(src, pre0, p, post, x, ps', k);
  }

  /** A value can be overwritten by every literal exactly when its first token is
      not a `?>` that ends a line comment. */
  lemma WritableExactly(src: string, path: seq<string>)
    requires path != [] && Read(src, path).Value?
    ensures Placeable(src, path) <==>
      forall v :: IsLiteral(v) ==> PatchArray(src, path, v).Ok? && ReadText(PatchArray(src, path, v).value, path) == Some(v)
  {
    hide Read, Placeable, IsLiteral, PatchArray, ReadText, SingleQuoted;
    if Placeable(src, path) {
      forall v | IsLiteral(v)
        ensures PatchArray(src, path, v).Ok? && ReadText(PatchArray(src, path, v).value, path) == Some(v)
      {
        ReplaceReads(src, path, v, path);
      }
    } else {
      SwallowedLost(src, path);
      QuotedIsLiteral(Long(|src| + 1));
    }
  }
}
