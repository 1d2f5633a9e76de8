/** patchPHPConstants: which calls are edited, and where new ones go. */
module PhpConstants {
  import opened Text
  import opened PhpLexer
  import S = Sequences
  import opened PhpTokens
  import opened PhpLiterals
  import opened PhpSplice
  import opened PhpArrayPatch
  import opened PhpDefines

  // ----- the insertion point -----

  predicate IncludeWord(s: string) {
    var w := Lower(s);
    w == "require" || w == "require_once" || w == "include" || w == "include_once"
  }

  function BraceStep(s: string): int {
    if s == "{" then 1 else if s == "}" then -1 else 0
  }

  /** The first include keyword or closing tag outside braces. */
  function Fallback(ls: seq<Lexeme>, i: nat, depth: int): Option<nat>
    requires i <= |ls|
    decreases |ls| - i
  {
    if i == |ls| then None
    else
      var n := depth + BraceStep(ls[i].Txt());
      if n == 0 && (ls[i].token.kind == Close || IncludeWord(ls[i].Txt())) then Some(i)
      else if IsDefine(ls, i) then
        match DefineAt(ls, i)
        case Err(_) => None
        case Ok(d) => Fallback(ls, d.next, n)
      else Fallback(ls, i + 1, n)
  }

  /** The first call outside braces that defines the anchor. */
  function Anchor(ls: seq<Lexeme>, i: nat, depth: int, anchor: string): Option<nat>
    requires i <= |ls|
    decreases |ls| - i
  {
    if i == |ls| then None
    else
      var n := depth + BraceStep(ls[i].Txt());
      if IsDefine(ls, i) then
        match DefineAt(ls, i)
        case Err(_) => None
        case Ok(d) => if d.key == anchor && n == 0 then Some(i) else Anchor(ls, d.next, n, anchor)
      else Anchor(ls, i + 1, n, anchor)
  }

  /** The token before which new calls go, or the number of tokens. */
  function InsertToken(ls: seq<Lexeme>, anchor: string): (c: nat)
    ensures c <= |ls|
  {
    match Anchor(ls, 0, 0, anchor)
    case Some(i) => AnchorBound(ls, 0, 0, anchor); i
    case None =>
      match Fallback(ls, 0, 0)
      case Some(i) => FallbackBound(ls, 0, 0); i
      case None => |ls|
  }

  lemma {:induction false} AnchorBound(ls: seq<Lexeme>, i: nat, depth: int, anchor: string)
    requires i <= |ls| && Anchor(ls, i, depth, anchor).Some?
    ensures var c := Anchor(ls, i, depth, anchor).value;
      c < |ls| && Passes(ls, i, c) && IsDefine(ls, c)
    decreases |ls| - i
  {
    hide IsDefine, CallAt;
    var n := depth + BraceStep(ls[i].Txt());
    if IsDefine(ls, i) {
      var d := DefineAt(ls, i).value;
      if !(d.key == anchor && n == 0) { AnchorBound(ls, d.next, n, anchor); }
    } else {
      AnchorBound(ls, i + 1, n, anchor);
    }
    WalkSplit(ls, i, Anchor(ls, i, depth, anchor).value);
  }

  lemma {:induction false} FallbackBound(ls: seq<Lexeme>, i: nat, depth: int)
    requires i <= |ls| && Fallback(ls, i, depth).Some?
    ensures var c := Fallback(ls, i, depth).value;
      c < |ls| && Passes(ls, i, c) && (ls[c].token.kind == Close || IncludeWord(ls[c].Txt()))
    decreases |ls| - i
  {
    hide IsDefine, CallAt, IncludeWord;
    var n := depth + BraceStep(ls[i].Txt());
    if !(n == 0 && (ls[i].token.kind == Close || IncludeWord(ls[i].Txt()))) {
      if IsDefine(ls, i) {
        FallbackBound(ls, DefineAt(ls, i).value.next, n);
      } else {
        FallbackBound(ls, i + 1, n);
      }
      WalkSplit(ls, i, Fallback(ls, i, depth).value);
    }
  }

  // ----- braces -----

  function Braces(ls: seq<Lexeme>): int {
    if ls == [] then 0 else BraceStep(ls[0].Txt()) + Braces(ls[1..])
  }

  function OpenBraces(stack: seq<string>): nat {
    if stack == [] then 0 else (if stack[0] == "{" then 1 else 0) + OpenBraces(stack[1..])
  }

  lemma {:induction false} OpenBracesSnoc(stack: seq<string>, s: string)
    ensures OpenBraces(stack + [s]) == OpenBraces(stack) + if s == "{" then 1 else 0
  {
    if stack == [] {
      assert stack + [s] == [s] && [s][1..] == [];
    } else {
      assert (stack + [s])[1..] == stack[1..] + [s];
      OpenBracesSnoc(stack[1..], s);
    }
  }

  lemma {:induction false} RunBraces(stack: seq<string>, ls: seq<Lexeme>)
    requires Run(stack, ls).Some?
    ensures OpenBraces(Run(stack, ls).value) == OpenBraces(stack) + Braces(ls)
    decreases |ls|
  {
    if ls != [] {
      var t := ls[0].Txt();
      var s := Feed(stack, t).value;
      if IsOpen(t) {
        OpenBracesSnoc(stack, t);
      } else if IsClose(t) {
        assert stack == s + [stack[|stack| - 1]];
        OpenBracesSnoc(s, stack[|stack| - 1]);
      }
      RunBraces(s, ls[1..]);
    }
  }

  lemma {:induction false} BracesConcat(a: seq<Lexeme>, b: seq<Lexeme>)
    ensures Braces(a + b) == Braces(a) + Braces(b)
  {
    if a == [] {
      assert a + b == b;
    } else {
      assert (a + b)[1..] == a[1..] + b;
      BracesConcat(a[1..], b);
    }
  }

  /** The tokens of a call hold as many opening as closing braces. */
  lemma CallBraces(ls: seq<Lexeme>, i: nat)
    requires i < |ls| && IsDefine(ls, i) && DefineAt(ls, i).Ok?
    ensures Braces(ls[i..DefineAt(ls, i).value.next]) == 0
  {
    hide MatchLength, Split, LiteralKey, Balanced;
    var xs := ls[i..];
    var n := MatchLength(xs[1..], []).value;
    var g := xs[1..][..n];
    MatchIsGroup(xs[1..]);
    GroupBalanced(g);
    BalancedBraces(g);
    S.HeadTail(ls, i, n);
    assert ls[i..i + n + 1] == [ls[i]] + g;
    assert ([ls[i]] + g)[1..] == g;
    assert !(ls[i].Txt() == "{") && !(ls[i].Txt() == "}");
  }

  lemma BalancedBraces(g: seq<Lexeme>)
    requires Balanced(g)
    ensures Braces(g) == 0
  {
    RunBraces([], g);
  }

  /** A closing tag or include keyword that the walk passes outside braces is found,
      if not an earlier one. */
  lemma {:induction false} FallbackFinds(ls: seq<Lexeme>, i: nat, depth: int, t: nat)
    requires i <= t < |ls| && Passes(ls, i, t) && Walk(ls, i).Ok?
    requires depth + Braces(ls[i..t + 1]) == 0 && (ls[t].token.kind == Close || IncludeWord(ls[t].Txt()))
    requires !IsDefine(ls, t)
    ensures Fallback(ls, i, depth).Some?
    decreases |ls| - i
  {
    hide IsDefine, CallAt, IncludeWord;
    var n := depth + BraceStep(ls[i].Txt());
    assert ls[i..t + 1][0] == ls[i] && ls[i..t + 1][1..] == ls[i + 1..t + 1];
    if i == t {
      assert ls[i + 1..t + 1] == [];
    } else if IsDefine(ls, i) {
      var d := DefineAt(ls, i).value;
      WalkSplit(ls, d.next, t);
      assert ls[i..t + 1] == ls[i..d.next] + ls[d.next..t + 1];
      BracesConcat(ls[i..d.next], ls[d.next..t + 1]);
      CallBraces(ls, i);
      DefineNoBrace(ls, i);
      FallbackFinds(ls, d.next, n, t);
    } else {
      FallbackFinds(ls, i + 1, n, t);
    }
  }

  lemma DefineNoBrace(ls: seq<Lexeme>, i: nat)
    requires i < |ls| && IsDefine(ls, i)
    ensures BraceStep(ls[i].Txt()) == 0
  {
  }

  /** Before a token that closes no parenthesis, the walk takes a single step. */
  lemma {:induction false} PassesBack(ls: seq<Lexeme>, i: nat, t: nat)
    requires i < t <= |ls| && Passes(ls, i, t) && ls[t - 1].Txt() != ")"
    ensures Passes(ls, i, t - 1) && !IsDefine(ls, t - 1) && WalkTo(ls, i, t - 1) == WalkTo(ls, i, t)
    decreases |ls| - i
  {
    hide IsDefine, CallAt;
    if IsDefine(ls, i) {
      var d := DefineAt(ls, i).value;
      CallTokens(ls, i);
      WalkSplit(ls, d.next, t);
      assert d.next != t;
      PassesBack(ls, d.next, t);
      WalkSplit(ls, d.next, t - 1);
      WalkStep(ls, i, t - 1);
    } else if i + 1 < t {
      PassesBack(ls, i + 1, t);
      WalkSkip(ls, i, t - 1);
    } else {
      PassesHere(ls, i);
      PassesHere(ls, t);
    }
  }

  /** When nothing else is found, the source ends in PHP mode. */
  lemma EndsInPhp(src: string, d: Doc)
    requires Parse(src) == Ok(d) && Walk(d.lexemes, 0).Ok? && Fallback(d.lexemes, 0, 0).None?
    ensures ModeAfter(Pieces(d.lexemes), false)
  {
    hide Parse, Pieces, ModeAfter, IsDefine, CallAt, Walk, Fallback, Passes, Balanced;
    ParseScan(src);
    var ls := d.lexemes;
    var t := |ls| - 1;
    ModeAt(src, d, t);
    assert ls[..t + 1] == ls;
    if ls[t].token.kind == Close {
      WalkPassesEnd(ls, 0);
      PassesBack(ls, 0, |ls|);
      BalancedBraces(ls);
      assert ls[0..t + 1] == ls;
      FallbackFinds(ls, 0, 0, t);
    }
  }

  lemma {:induction false} WalkPassesEnd(ls: seq<Lexeme>, i: nat)
    requires i <= |ls| && Walk(ls, i).Ok?
    ensures Passes(ls, i, |ls|)
    decreases |ls| - i
  {
    hide IsDefine, CallAt;
    if i < |ls| {
      WalkOne(ls, i);
      if IsDefine(ls, i) {
        WalkPassesEnd(ls, DefineAt(ls, i).value.next);
        WalkStep(ls, i, |ls|);
      } else {
        WalkPassesEnd(ls, i + 1);
        WalkSkip(ls, i, |ls|);
      }
    }
  }

  // ----- where the line of the insertion starts -----

  function Gap(d: Doc, c: nat): seq<Piece>
    requires c <= |d.lexemes|
  {
    if c < |d.lexemes| then d.lexemes[c].gap else d.tail
  }

  /** The pieces before and after piece k of the gap before token c, or of the tail. */
  function Head(d: Doc, c: nat, k: nat): seq<Piece>
    requires c <= |d.lexemes| && k <= |Gap(d, c)|
  {
    Pieces(d.lexemes[..c]) + Gap(d, c)[..k]
  }

  function Rest(d: Doc, c: nat, k: nat): seq<Piece>
    requires c <= |d.lexemes| && k <= |Gap(d, c)|
  {
    Gap(d, c)[k..] + (if c < |d.lexemes| then [d.lexemes[c].token] + Pieces(d.lexemes[c + 1..]) + d.tail else [])
  }

  /** Token c, or the end of the source, is read in PHP mode. */
  predicate InPhp(d: Doc, c: nat)
    requires c <= |d.lexemes|
  {
    if c < |d.lexemes| then d.lexemes[c].token.kind != Open else ModeAfter(Pieces(d.lexemes), false)
  }

  lemma HeadRest(src: string, d: Doc, c: nat, k: nat)
    requires Parse(src) == Ok(d) && c <= |d.lexemes| && k <= |Gap(d, c)|
    ensures AllPieces(d) == Head(d, c, k) + Rest(d, c, k)
    ensures src == Flatten(Head(d, c, k)) + Flatten(Rest(d, c, k))
    ensures InPhp(d, c) ==> ModeAfter(Head(d, c, k), false)
  {
    hide Parse, Pieces, Flatten, ModeAfter;
    if c < |d.lexemes| {
      CutInGap(src, d, c, k);
      assert Head(d, c, k) == PhpArrayPatch.Before(d, c, k) && Rest(d, c, k) == Behind(d, c, k);
    } else {
      ParseScan(src);
      assert d.lexemes[..c] == d.lexemes && d.tail == d.tail[..k] + d.tail[k..];
      assert AllPieces(d) == Head(d, c, k) + Rest(d, c, k);
      FlattenConcat(Head(d, c, k), Rest(d, c, k));
      ModeConcat(Pieces(d.lexemes), d.tail[..k], false);
      TriviaMode(d.tail[..k], ModeAfter(Pieces(d.lexemes), false));
    }
  }

  /** Piece k of a gap in PHP code. */
  lemma GapPart(src: string, d: Doc, c: nat, k: nat)
    requires Parse(src) == Ok(d) && c <= |d.lexemes| && k < |Gap(d, c)| && InPhp(d, c)
    ensures var p := Gap(d, c)[k];
      && (p.kind == Blank || p.kind == Comment) && p.text != ""
      && (p.kind == Blank ==> |p.text| == 1 && IsBlank(p.text[0]))
      && (p.kind == Comment ==> p.text[0] == '#' || p.text[0] == '/')
      && (p.kind == Comment ==>
        if IsLineComment(p) then forall i :: 0 <= i < |p.text| ==> p.text[i] != '\n' && p.text[i] != '\r' else p.text[|p.text| - 1] == '/')
  {
    hide Parse, Pieces, Flatten, ModeAfter, Scan, Lex;
    ParseScan(src);
    HeadRest(src, d, c, k);
    var pre, post := Head(d, c, k), Rest(d, c, k);
    var ps, p := AllPieces(d), Gap(d, c)[k];
    assert ps[..|pre|] == pre && ps[|pre|..] == post && ps[|pre|] == p;
    LexedAt(src, ps, |pre|);
    assert !IsToken(p) by {
      assert p in Gap(d, c);
      if c < |d.lexemes| { assert d.lexemes[c] in d.lexemes; }
    }
    LexMode(Flatten(post), true);
    if p.kind == Comment { LexComment(Flatten(post), true); }
  }

  /** insertAt moves to the start of its line when only spaces precede it. */
  function LinePosition(src: string, at: nat): (pos: nat)
    requires at <= |src|
    ensures pos <= at
  {
    var n := LineStart(src[..at]);
    if AllSpace(src[n..at]) then n else at
  }

  /** The line of an insertion starts at a piece of the gap before some token, with
      only tokens made of spaces between it and the insertion point. */
  lemma {:induction false} LineInGaps(src: string, d: Doc, c: nat, k: nat) returns (c': nat, k': nat)
    requires Parse(src) == Ok(d) && Walk(d.lexemes, 0).Ok? && c <= |d.lexemes| && k <= |Gap(d, c)| && InPhp(d, c)
    requires Passes(d.lexemes, 0, c)
    requires var f := Flatten(Head(d, c, k)); AllSpace(f[LineStart(f)..])
    ensures c' <= c && k' <= |Gap(d, c')| && InPhp(d, c') && Passes(d.lexemes, 0, c')
    ensures |Flatten(Head(d, c', k'))| == LineStart(Flatten(Head(d, c, k)))
    ensures k' > 0 ==> Gap(d, c')[k' - 1].kind != Html && !IsLineComment(Gap(d, c')[k' - 1])
    ensures c' < c ==> AllSpace(d.lexemes[c'].Txt()) && d.lexemes[c'].Txt() != ""
    decreases c, k
  {
    hide Parse, Flatten, Pieces, Walk, Passes, IsDefine, LineStart;
    var f := Flatten(Head(d, c, k));
    var n := LineStart(f);
    EmptyHead(d);
    if n == |f| {
      c', k' := c, k;
      if k > 0 { GapEnd(src, d, c, k); }
    } else if k > 0 {
      var g := GapStep(src, d, c, k);
      c', k' := LineInGaps(src, d, c, k - 1);
    } else {
      TokenStep(src, d, c);
      PassesBack(d.lexemes, 0, c);
      c', k' := LineInGaps(src, d, c - 1, |Gap(d, c - 1)|);
    }
  }

  lemma EmptyHead(d: Doc)
    ensures Flatten(Head(d, 0, 0)) == ""
  {
  }

  lemma GapEnd(src: string, d: Doc, c: nat, k: nat)
    requires Parse(src) == Ok(d) && c <= |d.lexemes| && 0 < k <= |Gap(d, c)| && InPhp(d, c)
    requires var f := Flatten(Head(d, c, k)); LineStart(f) == |f|
    ensures Gap(d, c)[k - 1].kind != Html && !IsLineComment(Gap(d, c)[k - 1])
  {
    hide Parse, Flatten, Pieces;
    var p, g := Gap(d, c)[k - 1], Flatten(Head(d, c, k - 1));
    GapPart(src, d, c, k - 1);
    assert Head(d, c, k) == Head(d, c, k - 1) + [p];
    FlattenConcat(Head(d, c, k - 1), [p]);
    FlattenOne(p);
    var f := Flatten(Head(d, c, k));
    assert f[|f| - 1] == p.text[|p.text| - 1];
  }

  /** A gap piece on an all-space line is a blank; the line goes on before it. */
  lemma GapStep(src: string, d: Doc, c: nat, k: nat) returns (g: string)
    requires Parse(src) == Ok(d) && c <= |d.lexemes| && 0 < k <= |Gap(d, c)| && InPhp(d, c)
    requires var f := Flatten(Head(d, c, k)); AllSpace(f[LineStart(f)..]) && LineStart(f) < |f|
    ensures g == Flatten(Head(d, c, k - 1)) && LineStart(g) == LineStart(Flatten(Head(d, c, k))) && AllSpace(g[LineStart(g)..])
  {
    hide Parse, Flatten, Pieces;
    var p := Gap(d, c)[k - 1];
    g := Flatten(Head(d, c, k - 1));
    GapPart(src, d, c, k - 1);
    assert Head(d, c, k) == Head(d, c, k - 1) + [p];
    FlattenConcat(Head(d, c, k - 1), [p]);
    FlattenOne(p);
    var f := Flatten(Head(d, c, k));
    if p.kind == Comment { CommentLine(f, g, p); }
    ShorterLine(f, g);
  }

  lemma ShorterLine(f: string, g: string)
    requires f != "" && g == f[..|f| - 1] && LineStart(f) < |f| && AllSpace(f[LineStart(f)..])
    ensures LineStart(g) == LineStart(f) && AllSpace(g[LineStart(g)..])
  {
  }

  /** Dropping a text without a line break from an all-space line. */
  lemma ShorterText(f: string, g: string, t: string)
    requires f == g + t && (forall i :: 0 <= i < |t| ==> t[i] != '\n') && AllSpace(f[LineStart(f)..])
    ensures LineStart(g) == LineStart(f) && AllSpace(g[LineStart(g)..]) && AllSpace(t)
  {
    var n := LineStart(f);
    forall i | |g| <= i < |f|
      ensures f[i] != '\n'
    {
      assert f[i] == t[i - |g|];
    }
    assert n <= |g|;
    assert forall i :: n <= i < |g| ==> f[i] == g[i];
    LineStartIs(g, n);
    assert forall i :: 0 <= i < |g[n..]| ==> g[n..][i] == f[n..][i];
    assert forall i :: 0 <= i < |t| ==> t[i] == f[n..][|g| - n + i];
  }

  /** A token on an all-space line is made of spaces; the line goes on before it. */
  lemma TokenStep(src: string, d: Doc, c: nat)
    requires Parse(src) == Ok(d) && 0 < c <= |d.lexemes|
    requires var f := Flatten(Head(d, c, 0)); AllSpace(f[LineStart(f)..]) && LineStart(f) < |f|
    ensures var g := Flatten(Head(d, c - 1, |Gap(d, c - 1)|));
      && LineStart(g) == LineStart(Flatten(Head(d, c, 0))) && AllSpace(g[LineStart(g)..])
    ensures InPhp(d, c - 1) && AllSpace(d.lexemes[c - 1].Txt()) && d.lexemes[c - 1].Txt() != "" && d.lexemes[c - 1].Txt() != ")"
  {
    hide Parse, Flatten, Pieces;
    var t := d.lexemes[c - 1].token;
    var f, g := Flatten(Head(d, c, 0)), Flatten(Head(d, c - 1, |Gap(d, c - 1)|));
    PiecesSnoc(d.lexemes, c - 1);
    var h := Head(d, c - 1, |Gap(d, c - 1)|);
    assert Head(d, c, 0) == h + [t];
    FlattenConcat(h, [t]);
    FlattenOne(t);
    assert f == g + t.text;
    TokenEnd(src, d, c - 1);
    assert f[LineStart(f)..][|f| - 1 - LineStart(f)] == f[|f| - 1] == t.text[|t.text| - 1];
    ShorterText(f, g, t.text);
  }

  /** A token whose last character is a space has no line break and was read in PHP
      mode. */
  lemma TokenEnd(src: string, d: Doc, i: nat)
    requires Parse(src) == Ok(d) && i < |d.lexemes|
    ensures var t := d.lexemes[i].Txt();
      && t != ""
      && (IsSpace(t[|t| - 1]) ==> d.lexemes[i].token.kind != Open && t != ")" && forall j :: 0 <= j < |t| ==> t[j] != '\n')
  {
    hide Parse, Pieces, Flatten, ModeAfter, Scan, Lex;
    ParseScan(src);
    CutAt(d, i);
    var pre, t := Pieces(d.lexemes[..i]) + d.lexemes[i].gap, d.lexemes[i].token;
    var ps := AllPieces(d);
    assert ps[|pre|] == t;
    LexedAt(src, ps, |pre|);
    assert IsToken(t) by { assert d.lexemes[i] in d.lexemes; }
    LexTokenEnd(Flatten(ps[|pre|..]), ModeAfter(ps[..|pre|], false));
  }

  lemma LexTokenEnd(s: string, php: bool)
    requires s != "" && Lex(s, php).Ok? && IsToken(Lex(s, php).value)
    ensures var p := Lex(s, php).value;
      var t := p.text;
      && t != ""
      && (IsSpace(t[|t| - 1]) ==> p.kind != Open && t != ")" && forall j :: 0 <= j < |t| ==> t[j] != '\n')
  {
    var p := Lex(s, php).value;
    var t := p.text;
    if p.kind == Quoted {
      QuotedEnd(s[1..], s[0]);
      assert t[|t| - 1] == s[1..][|t| - 2];
    } else if p.kind == Identifier {
      IdentifierPrefix(s[1..]);
      assert forall j :: 0 < j < |t| ==> t[j] == s[1..][j - 1];
    }
  }

  lemma {:induction false} QuotedEnd(s: string, q: char)
    requires QuotedLength(s, q) > 0
    ensures s[QuotedLength(s, q) - 1] == q
  {
    if s[0] == '\\' {
      QuotedEnd(s[2..], q);
    } else if s[0] != q {
      QuotedEnd(s[1..], q);
    }
  }

  lemma {:induction false} IdentifierPrefix(s: string)
    ensures forall j :: 0 <= j < IdentifierLength(s) ==> IsIdentifierPart(s[j])
  {
    if s != "" && IsIdentifierPart(s[0]) {
      IdentifierPrefix(s[1..]);
      assert forall j :: 0 < j < |s| ==> s[j] == s[1..][j - 1];
    }
  }
}
