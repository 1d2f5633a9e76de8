/** patchPHPArrayValue as a lens on source text.

    `PatchArray` says where the edit goes in the text; the theorems say what the
    edited text parses to, and from that what every path reads afterwards. */
module PhpArrayPatch {
  import opened Text
  import opened PhpLexer
  import S = Sequences
  import opened PhpTokens
  import opened PhpLiterals
  import opened PhpSplice
  import opened PhpScalars
  import opened PhpArray
  import opened PhpEntries

  // ----- offsets -----

  /** The offsets of token i in the source. */
  function Start(ls: seq<Lexeme>, i: nat): nat
    requires i < |ls|
  {
    |Flatten(Pieces(ls[..i]) + ls[i].gap)|
  }

  function End(ls: seq<Lexeme>, i: nat): nat
    requires i < |ls|
  {
    |Flatten(Pieces(ls[..i + 1]))|
  }

  lemma FlattenPrefix(src: string, a: seq<Piece>, b: seq<Piece>)
    requires src == Flatten(a + b)
    ensures |Flatten(a)| <= |src| && src[..|Flatten(a)|] == Flatten(a) && src[|Flatten(a)|..] == Flatten(b)
  {
    FlattenConcat(a, b);
  }

  /** The source around token i. */
  lemma Offsets(src: string, d: Doc, i: nat)
    requires Parse(src) == Ok(d) && i < |d.lexemes|
    ensures var ls := d.lexemes;
      && Start(ls, i) + |ls[i].Txt()| == End(ls, i) <= |src|
      && src[..Start(ls, i)] == Flatten(Pieces(ls[..i]) + ls[i].gap)
      && src[Start(ls, i)..End(ls, i)] == ls[i].Txt()
      && src[..End(ls, i)] == Flatten(Pieces(ls[..i + 1]))
      && src[End(ls, i)..] == Flatten(Pieces(ls[i + 1..]) + d.tail)
  {
    hide Parse, Flatten, Pieces;
    var ls := d.lexemes;
    ParseScan(src);
    CutAt(d, i);
    var a, t, b := Pieces(ls[..i]) + ls[i].gap, ls[i].token, Pieces(ls[i + 1..]) + d.tail;
    FlattenPrefix(src, a, [t] + b);
    PiecesSnoc(ls, i);
    assert AllPieces(d) == (a + [t]) + b;
    FlattenPrefix(src, a + [t], b);
    FlattenConcat(a, [t]);
    FlattenOne(t);
  }

  lemma FlattenOne(p: Piece)
    ensures Flatten([p]) == p.text
  {
  }

  /** The pieces of a document before and after piece k of the gap at token c. */
  function Before(d: Doc, c: nat, k: nat): seq<Piece>
    requires c < |d.lexemes| && k <= |d.lexemes[c].gap|
  {
    Pieces(d.lexemes[..c]) + d.lexemes[c].gap[..k]
  }

  function Behind(d: Doc, c: nat, k: nat): seq<Piece>
    requires c < |d.lexemes| && k <= |d.lexemes[c].gap|
  {
    d.lexemes[c].gap[k..] + [d.lexemes[c].token] + Pieces(d.lexemes[c + 1..]) + d.tail
  }

  lemma CutInGap(src: string, d: Doc, c: nat, k: nat)
    requires Parse(src) == Ok(d) && c < |d.lexemes| && k <= |d.lexemes[c].gap|
    ensures AllPieces(d) == Before(d, c, k) + Behind(d, c, k)
    ensures src == Flatten(Before(d, c, k)) + Flatten(Behind(d, c, k))
    ensures ModeAfter(Before(d, c, k), false) <==> d.lexemes[c].token.kind != Open
  {
    hide Parse, Pieces, Flatten, ModeAfter, Scan;
    var ls, gap := d.lexemes, d.lexemes[c].gap;
    ParseScan(src);
    CutAt(d, c);
    assert gap == gap[..k] + gap[k..];
    assert AllPieces(d) == Before(d, c, k) + Behind(d, c, k);
    FlattenConcat(Before(d, c, k), Behind(d, c, k));
    ModeAt(src, d, c);
    ModeConcat(Pieces(ls[..c]), gap[..k], false);
    assert ls[c] in ls;
    TriviaMode(gap[..k], ModeAfter(Pieces(ls[..c]), false));
  }

  /** Insert t, which reads as mid, between two pieces of PHP code. */
  lemma InsertPieces(src: string, pre: seq<Piece>, post: seq<Piece>, mid: seq<Piece>, t: string)
    requires Scan(src, false) == Ok(pre + post) && pre != [] && ModeAfter(pre, false)
    requires Reads(mid, t, Flatten(post)) && Safe(pre[|pre| - 1], t + Flatten(post))
    ensures Scan(Flatten(pre) + t + Flatten(post), false) == Ok(pre + mid + post)
  {
    hide Lexes, Lex, ModeAfter, Flatten, Safe, Scan;
    var ps := pre + post;
    assert ps[..|pre|] == pre && ps[|pre|..] == post;
    SafeFollows(pre, t + Flatten(post));
    Splice(src, ps, |pre|, |pre|, mid);
  }

  lemma LastPiece(ls: seq<Lexeme>, c: nat)
    requires 0 < c <= |ls|
    ensures Pieces(ls[..c]) != [] && Pieces(ls[..c])[|Pieces(ls[..c])| - 1] == ls[c - 1].token
  {
    PiecesSnoc(ls, c - 1);
  }

  /** A comma goes right behind a token. */
  lemma InsertComma(src: string, d: Doc, c: nat)
    requires Parse(src) == Ok(d) && 0 < c < |d.lexemes| && d.lexemes[c].token.kind != Open
    ensures var ls := d.lexemes;
      var e := End(ls, c - 1);
      e <= |src| && Parse(src[..e] + "," + src[e..]) == Ok(Doc(ls[..c] + [COMMA] + ls[c..], d.tail))
  {
    hide Lexes, Lex, ModeAfter, Flatten, Scan, Parse, Balanced, Pieces, Safe;
    var ls := d.lexemes;
    var pre, post := Before(d, c, 0), Behind(d, c, 0);
    Offsets(src, d, c - 1);
    ParseScan(src);
    CutInGap(src, d, c, 0);
    assert pre == Pieces(ls[..c]);
    LastPiece(ls, c);
    assert IsToken(ls[c - 1].token) by { assert ls[c - 1] in ls; }
    ReadsFirm(',', Flatten(post));
    SafeBlank(ls[c - 1].token, "," + Flatten(post));
    InsertPieces(src, pre, post, [COMMA.token], ",");
    var d' := Doc(ls[..c] + [COMMA] + ls[c..], d.tail);
    CommaDoc(ls, c, d.tail);
    assert AllPieces(d') == pre + [COMMA.token] + post;
    ScanParse(Flatten(pre) + "," + Flatten(post), d');
    assert Flatten(pre) == src[..|Flatten(pre)|] && Flatten(post) == src[|Flatten(pre)|..];
  }

  lemma CommaDoc(ls: seq<Lexeme>, c: nat, tail: seq<Piece>)
    requires c < |ls| && Balanced(ls)
    ensures var ls' := ls[..c] + [COMMA] + ls[c..];
      && Pieces(ls') + tail == Pieces(ls[..c]) + [COMMA.token] + (ls[c].gap[0..] + [ls[c].token] + Pieces(ls[c + 1..]) + tail)
      && Balanced(ls')
  {
    hide Balanced, Pieces;
    PiecesConcat(ls[..c] + [COMMA], ls[c..]);
    PiecesConcat(ls[..c], [COMMA]);
    PiecesOne(COMMA);
    PiecesHead(ls, c);
    assert ls == ls[..c] + [] + ls[c..];
    CommaBalanced();
    BalancedReplace(ls[..c], [], [COMMA], ls[c..]);
  }

  lemma CommaBalanced()
    ensures Balanced([]) && Balanced([COMMA])
  {
  }

  lemma PiecesHead(ls: seq<Lexeme>, c: nat)
    requires c < |ls|
    ensures Pieces(ls[c..]) == ls[c].gap + [ls[c].token] + Pieces(ls[c + 1..])
  {
  }

  /** An entry goes into the gap before a closing bracket. */
  lemma InsertEntryAt(src: string, d: Doc, c: nat, k: nat, lead: string, key: string, sub: seq<Lexeme>, t: string, trail: string)
    requires Parse(src) == Ok(d) && 0 < c < |d.lexemes| && k <= |d.lexemes[c].gap|
    requires IsClose(d.lexemes[c].Txt())
    requires AllBlank(lead) && lead != "" && AllBlank(trail)
    requires Neutral(sub) && sub != [] && WellFormed(sub)
    requires forall r :: Reads(Pieces(sub), t, "," + r)
    requires k > 0 ==> d.lexemes[c].gap[k - 1].kind != Html && !IsLineComment(d.lexemes[c].gap[k - 1])
    ensures var ls, gap := d.lexemes, d.lexemes[c].gap;
      var pos := |Flatten(Before(d, c, k))|;
      && pos <= |src|
      && Parse(src[..pos] + (lead + SingleQuoted(key) + " =>" + t + "," + trail) + src[pos..]) == Ok(Doc(
        ls[..c] + Flat([EntryPart(gap[..k] + Blanks(lead), key, sub)]) + ([Lexeme(Blanks(trail) + gap[k..], ls[c].token)] + ls[c + 1..]), d.tail))
  {
    hide Lexes, Lex, ModeAfter, Flatten, Scan, Parse, Balanced, Pieces, Reads, SingleQuoted, Blanks, EntryPart, EntryPieces, Flat, ArgLength, Safe;
    var ls, gap := d.lexemes, d.lexemes[c].gap;
    var pre, post := Before(d, c, k), Behind(d, c, k);
    var text := lead + SingleQuoted(key) + " =>" + t + "," + trail;
    var mid := EntryPieces(Blanks(lead), key, Pieces(sub)) + Blanks(trail);
    ReadsEntryLine(lead, key, sub, t, trail, Flatten(post));
    ParseScan(src);
    CutInGap(src, d, c, k);
    assert ls[c].token.kind != Open by { ModeAt(src, d, c); }
    LastPiece(ls, c);
    assert pre[|pre| - 1] == if k > 0 then gap[k - 1] else ls[c - 1].token;
    assert IsToken(ls[c - 1].token) by { assert ls[c - 1] in ls; }
    SafeBlank(pre[|pre| - 1], text + Flatten(post));
    InsertPieces(src, pre, post, mid, text);
    var part := EntryPart(gap[..k] + Blanks(lead), key, sub);
    var close := Lexeme(Blanks(trail) + gap[k..], ls[c].token);
    var d' := Doc(ls[..c] + Flat([part]) + ([close] + ls[c + 1..]), d.tail);
    EntryDocPieces(ls, c, k, lead, key, sub, trail, d.tail);
    EntryDocBalanced(ls, c, part, close, gap[..k] + Blanks(lead), key, sub);
    EntryDocWellFormed(ls, c, k, lead, key, sub, trail);
    ScanParse(Flatten(pre) + text + Flatten(post), d');
    assert Flatten(pre) == src[..|Flatten(pre)|] && Flatten(post) == src[|Flatten(pre)|..];
  }

  lemma ReadsEntryLine(lead: string, key: string, sub: seq<Lexeme>, t: string, trail: string, r: string)
    requires AllBlank(lead) && AllBlank(trail) && Reads(Pieces(sub), t, "," + (trail + r))
    ensures Reads(EntryPieces(Blanks(lead), key, Pieces(sub)) + Blanks(trail), lead + SingleQuoted(key) + " =>" + t + "," + trail, r)
  {
    hide Reads, SingleQuoted, Blanks, EntryPieces, Pieces;
    ReadsBlanks(trail, r);
    ReadsEntry(lead, key, Pieces(sub), t, trail + r);
    ReadsConcat(EntryPieces(Blanks(lead), key, Pieces(sub)), lead + SingleQuoted(key) + " =>" + t + ",", Blanks(trail), trail, r);
  }

  lemma EntryDocPieces(ls: seq<Lexeme>, c: nat, k: nat, lead: string, key: string, sub: seq<Lexeme>, trail: string, tail: seq<Piece>)
    requires c < |ls| && k <= |ls[c].gap|
    ensures var gap := ls[c].gap;
      var part := EntryPart(gap[..k] + Blanks(lead), key, sub);
      var close := Lexeme(Blanks(trail) + gap[k..], ls[c].token);
      AllPieces(Doc(ls[..c] + Flat([part]) + ([close] + ls[c + 1..]), tail)) ==
        (Pieces(ls[..c]) + gap[..k]) + (EntryPieces(Blanks(lead), key, Pieces(sub)) + Blanks(trail)) + (gap[k..] + [ls[c].token] + Pieces(ls[c + 1..]) + tail)
  {
    hide Pieces, SingleQuoted, Blanks, EntryPart, Flat;
    var gap := ls[c].gap;
    var part := EntryPart(gap[..k] + Blanks(lead), key, sub);
    var close := Lexeme(Blanks(trail) + gap[k..], ls[c].token);
    PiecesConcat(ls[..c] + Flat([part]), [close] + ls[c + 1..]);
    PiecesConcat(ls[..c], Flat([part]));
    PiecesConcat([close], ls[c + 1..]);
    PiecesOne(close);
    EntryFlat(gap[..k] + Blanks(lead), key, sub);
  }

  lemma EntryDocBalanced(ls: seq<Lexeme>, c: nat, part: Part, close: Lexeme, gap: seq<Piece>, key: string, sub: seq<Lexeme>)
    requires c < |ls| && Balanced(ls) && Neutral(sub) && sub != []
    requires part == EntryPart(gap, key, sub) && close.token == ls[c].token
    ensures Balanced(ls[..c] + Flat([part]) + ([close] + ls[c + 1..]))
  {
    hide EntryPart, ArgLength;
    EntryPartValid(gap, key, sub);
    PartsBalanced([part]);
    CommaBalanced();
    assert ls == ls[..c] + [] + ([ls[c]] + ls[c + 1..]);
    var b, b' := [ls[c]] + ls[c + 1..], [close] + ls[c + 1..];
    assert forall st :: Run(st, b) == Run(st, b') by {
      assert b[1..] == b'[1..];
    }
    BalancedReplace(ls[..c], [], Flat([part]), b);
    RunConcat([], ls[..c] + Flat([part]), b);
    RunConcat([], ls[..c] + Flat([part]), b');
  }

  lemma EntryDocWellFormed(ls: seq<Lexeme>, c: nat, k: nat, lead: string, key: string, sub: seq<Lexeme>, trail: string)
    requires c < |ls| && k <= |ls[c].gap| && WellFormed(ls) && WellFormed(sub)
    ensures var gap := ls[c].gap;
      var part := EntryPart(gap[..k] + Blanks(lead), key, sub);
      var close := Lexeme(Blanks(trail) + gap[k..], ls[c].token);
      WellFormed(ls[..c] + Flat([part]) + ([close] + ls[c + 1..]))
  {
    hide SingleQuoted;
    assert ls[c] in ls;
    var part := EntryPart(ls[c].gap[..k] + Blanks(lead), key, sub);
    assert [part][1..] == [];
    assert Flat([part]) == part.arg + part.comma + [];
  }

  // ----- replacing a value -----

  /** A line comment runs right up to the token.  That happens only when the token
      is `?>`. */
  predicate Swallowed(l: Lexeme) {
    l.gap != [] && IsLineComment(l.gap[|l.gap| - 1])
  }

  /** Pieces in the gap before a token read in PHP mode are blanks and comments. */
  lemma GapPiece(src: string, d: Doc, c: nat, k: nat)
    requires Parse(src) == Ok(d) && c < |d.lexemes| && k < |d.lexemes[c].gap|
    requires d.lexemes[c].token.kind != Open
    ensures var p := d.lexemes[c].gap[k];
      && (p.kind == Blank || p.kind == Comment)
      && p.text != "" && (IsBlank(p.text[0]) || p.text[0] == '#' || p.text[0] == '/')
      && (p.kind == Blank ==> |p.text| == 1)
      && (p.kind == Comment ==> p.text[0] == '#' || p.text[0] == '/')
      && (p.kind == Comment ==>
        if IsLineComment(p) then forall i :: 0 <= i < |p.text| ==> p.text[i] != '\n' && p.text[i] != '\r' else p.text[|p.text| - 1] == '/')
      && Look(p, Flatten(Behind(d, c, k + 1)))
  {
    hide Parse, Flatten, ModeAfter, Scan, Lex, Look;
    ParseScan(src);
    CutInGap(src, d, c, k);
    var pre, post := Before(d, c, k), Behind(d, c, k);
    var ps := AllPieces(d);
    var p := d.lexemes[c].gap[k];
    assert ps[..|pre|] == pre && ps[|pre|..] == post && ps[|pre|] == p;
    LexedAt(src, ps, |pre|);
    assert p in d.lexemes[c].gap && d.lexemes[c] in d.lexemes;
    LexMode(Flatten(post), true);
    if p.kind == Comment { LexComment(Flatten(post), true); }
    assert post == [p] + Behind(d, c, k + 1);
    FlattenConcat([p], Behind(d, c, k + 1));
    FlattenOne(p);
    LexLook(p, true, Flatten(Behind(d, c, k + 1)));
  }

  /** After a gap that does not end in a line comment, anything may stand. */
  lemma SafeGap(src: string, d: Doc, c: nat, r: string)
    requires Parse(src) == Ok(d) && c < |d.lexemes| && d.lexemes[c].token.kind != Open
    requires d.lexemes[c].gap != [] && !Swallowed(d.lexemes[c])
    ensures Safe(d.lexemes[c].gap[|d.lexemes[c].gap| - 1], r)
  {
    hide Parse;
    var p := d.lexemes[c].gap[|d.lexemes[c].gap| - 1];
    GapPiece(src, d, c, |d.lexemes[c].gap| - 1);
    assert p.text[0] != '.' && p.text[0] != '<';
  }

  lemma FlattenHead(ps: seq<Piece>)
    requires ps != [] && ps[0].text != ""
    ensures Flatten(ps) != "" && Flatten(ps)[0] == ps[0].text[0]
  {
  }

  /** What follows a value that a comma or a bracket ends. */
  lemma AfterStart(src: string, d: Doc, j: nat)
    requires Parse(src) == Ok(d) && j < |d.lexemes|
    requires |d.lexemes[j].Txt()| == 1 && Firm(d.lexemes[j].Txt()[0])
    ensures d.lexemes[j].token.kind != Open
    ensures var r := Flatten(Pieces(d.lexemes[j..]) + d.tail); r != "" && AfterValue(r[0])
  {
    hide Parse, Flatten, Pieces;
    var l := d.lexemes[j];
    ModeAt(src, d, j);
    PiecesHead(d.lexemes, j);
    if l.gap != [] { GapPiece(src, d, j, 0); }
    FlattenHead(Pieces(d.lexemes[j..]) + d.tail);
  }

  /** The tokens from i to j, behind the gap of token i, give way to a literal. */
  lemma ReplaceValue(src: string, d: Doc, i: nat, j: nat, v: string)
    requires Parse(src) == Ok(d) && 0 < i < j < |d.lexemes|
    requires d.lexemes[i].token.kind != Open && !Swallowed(d.lexemes[i])
    requires d.lexemes[i - 1].Txt() == "=>" || d.lexemes[i - 1].Txt() == ","
    requires |d.lexemes[j].Txt()| == 1 && Firm(d.lexemes[j].Txt()[0])
    requires Balanced(d.lexemes[i..j]) && IsLiteral(v)
    ensures var ls := d.lexemes;
      && Start(ls, i) <= End(ls, j - 1) <= |src|
      && Parse(src[..Start(ls, i)] + v + src[End(ls, j - 1)..]) ==
        Ok(Doc(ls[..i] + ValueLexemes(ls[i].gap, LiteralPieces(v)) + ls[j..], d.tail))
  {
    hide Lexes, Lex, ModeAfter, Flatten, Scan, Parse, Balanced, Pieces, Safe, IsLiteral, LiteralPieces, ValueLexemes, AfterValue, Look;
    var ls, vps := d.lexemes, LiteralPieces(v);
    var pre, post, was := Pieces(ls[..i]) + ls[i].gap, Pieces(ls[j..]) + d.tail, [ls[i].token] + Pieces(ls[i + 1..j]);
    ParseScan(src);
    Offsets(src, d, i);
    Offsets(src, d, j - 1);
    Between(d, i, j);
    AfterStart(src, d, j);
    ReadsLiteral(v, Flatten(post));
    LiteralPiecesNonempty(v);
    ModeAt(src, d, i);
    ModeAt(src, d, j);
    ValueSafe(src, d, i, v + Flatten(post));
    S.Assoc(pre, was, post);
    FlattenPrefix(src, pre, was + post);
    FlattenConcat(pre, was);
    ReplacePieces(src, pre, was, post, vps, v);
    var d' := Doc(ls[..i] + ValueLexemes(ls[i].gap, vps) + ls[j..], d.tail);
    ReplacedDoc(ls, i, j, vps, d.tail);
    assert d'.lexemes != [] by { assert |ls[j..]| > 0; }
    ScanParse(Flatten(pre) + v + Flatten(post), d');
  }

  /** What stands before a value may stand before any other text. */
  lemma ValueSafe(src: string, d: Doc, i: nat, r: string)
    requires Parse(src) == Ok(d) && 0 < i < |d.lexemes| && d.lexemes[i].token.kind != Open && !Swallowed(d.lexemes[i])
    requires d.lexemes[i - 1].Txt() == "=>" || d.lexemes[i - 1].Txt() == ","
    ensures var pre := Pieces(d.lexemes[..i]) + d.lexemes[i].gap; pre != [] && Safe(pre[|pre| - 1], r)
  {
    hide Lexes, Lex, ModeAfter, Flatten, Scan, Parse, Balanced, Pieces, Safe, Look;
    var ls := d.lexemes;
    LastPiece(ls, i);
    if ls[i].gap == [] {
      ParseScan(src);
      assert IsToken(ls[i - 1].token) by { assert ls[i - 1] in ls; }
      ModeAt(src, d, i - 1);
      assert Pieces(ls[..i]) + ls[i].gap == Pieces(ls[..i]);
      SafeArrow(ls[i - 1].token, r);
    } else {
      SafeGap(src, d, i, r);
    }
  }

  lemma ReplacePieces(src: string, pre: seq<Piece>, was: seq<Piece>, post: seq<Piece>, mid: seq<Piece>, text: string)
    requires Scan(src, false) == Ok(pre + was + post) && pre != [] && ModeAfter(pre, false) && ModeAfter(pre + was, false)
    requires Reads(mid, text, Flatten(post)) && Safe(pre[|pre| - 1], text + Flatten(post))
    ensures Scan(Flatten(pre) + text + Flatten(post), false) == Ok(pre + mid + post)
  {
    hide Lexes, Lex, ModeAfter, Flatten, Safe, Scan;
    var ps := pre + was + post;
    S.Middle(pre, was, post);
    assert ps[..|pre + was|] == pre + was;
    SafeFollows(pre, text + Flatten(post));
    Splice(src, ps, |pre|, |pre + was|, mid);
  }

  lemma SafeArrow(p: Piece, r: string)
    requires (p.text == "=>" || p.text == ",") && IsToken(p) && p.kind != Identifier
    ensures Safe(p, r)
  {
  }

  lemma Between(d: Doc, i: nat, j: nat)
    requires i < j <= |d.lexemes|
    ensures var ls := d.lexemes;
      && Pieces(ls[..j]) == Pieces(ls[..i]) + ls[i].gap + ([ls[i].token] + Pieces(ls[i + 1..j]))
      && AllPieces(d) == Pieces(ls[..i]) + ls[i].gap + ([ls[i].token] + Pieces(ls[i + 1..j])) + (Pieces(ls[j..]) + d.tail)
  {
    hide Pieces;
    var ls := d.lexemes;
    assert ls[..j][..i] == ls[..i] && ls[..j][i + 1..] == ls[i + 1..j];
    CutAt(Doc(ls[..j], []), i);
    var mid := [ls[i].token] + Pieces(ls[i + 1..j]);
    assert Pieces(ls[..j]) == AllPieces(Doc(ls[..j], [])) == Pieces(ls[..i]) + ls[i].gap + mid;
    assert ls == ls[..j] + ls[j..];
    PiecesConcat(ls[..j], ls[j..]);
    assert AllPieces(d) == Pieces(ls[..j]) + (Pieces(ls[j..]) + d.tail);
  }

  lemma ReplacedDoc(ls: seq<Lexeme>, i: nat, j: nat, vps: seq<Piece>, tail: seq<Piece>)
    requires i < j <= |ls| && vps != [] && (forall k :: 0 <= k < |vps| ==> Plain(vps[k]))
    requires WellFormed(ls) && Balanced(ls) && Balanced(ls[i..j])
    ensures var ls' := ls[..i] + ValueLexemes(ls[i].gap, vps) + ls[j..];
      && AllPieces(Doc(ls', tail)) == Pieces(ls[..i]) + ls[i].gap + vps + (Pieces(ls[j..]) + tail)
      && WellFormed(ls') && Balanced(ls')
  {
    hide Pieces, Balanced, ArgLength;
    var x := ValueLexemes(ls[i].gap, vps);
    PiecesConcat(ls[..i] + x, ls[j..]);
    PiecesConcat(ls[..i], x);
    ValuePieces(ls[i].gap, vps);
    PlainNeutral(x);
    NeutralBalanced(x);
    assert ls == ls[..i] + ls[i..j] + ls[j..];
    BalancedReplace(ls[..i], ls[i..j], x, ls[j..]);
    assert ls[i] in ls;
  }

  // ----- where a new entry goes -----

  /** phpEOL */
  function EOL(src: string): (r: string)
    ensures AllBlank(r) && r != ""
  {
    if Index(src, "\r\n") >= 0 then "\r\n" else "\n"
  }

  /** The spaces and tabs at the head of s. */
  function Margin(s: string): (r: string)
    ensures AllBlank(r)
  {
    if s != "" && (s[0] == ' ' || s[0] == '\t') then [s[0]] + Margin(s[1..]) else ""
  }

  /** phpIndent */
  function Indent(src: string, pos: nat): (r: string)
    requires pos <= |src|
    ensures AllBlank(r)
  {
    Margin(src[LineStart(src[..pos])..pos])
  }

  /** The last part of patchPHPArrayValue: a new entry on its own line before the
      closing bracket at offset close. */
  function InsertLine(src: string, close: nat, opening: nat, firstKey: Option<nat>, path: seq<string>, value: string): string
    requires close <= |src| && opening <= |src| && (firstKey.Some? ==> firstKey.value <= |src|) && path != []
  {
    var eol := EOL(src);
    var base := Indent(src, opening);
    var indent := EntryIndent(src, opening, firstKey);
    var assignment := indent + SingleQuoted(path[0]) + " => " + NestedText(path[1..], value, indent, eol) + "," + eol;
    var lineStart := LineStart(src[..close]);
    if AllSpace(src[lineStart..close]) then src[..lineStart] + assignment + src[lineStart..]
    else src[..close] + eol + assignment + base + src[close..]
  }

  function EntryIndent(src: string, opening: nat, firstKey: Option<nat>): (r: string)
    requires opening <= |src| && (firstKey.Some? ==> firstKey.value <= |src|)
    ensures AllBlank(r) && r != ""
  {
    var base := Indent(src, opening);
    if firstKey.Some? && |Indent(src, firstKey.value)| > |base| then Indent(src, firstKey.value) else base + "    "
  }

  /** v stands at token i of d. */
  predicate Stands(d: Doc, i: nat, v: ArrayView) {
    ValidArray(v) && i + |Unparse(v)| <= |d.lexemes| && d.lexemes[i..i + |Unparse(v)|] == Unparse(v)
  }

  predicate NeedsComma(v: ArrayView) {
    v.parts != [] && v.parts[|v.parts| - 1].comma == []
  }

  /** The source with the last entry's missing comma. */
  function WithComma(src: string, d: Doc, c: nat, comma: bool): string
    requires Parse(src) == Ok(d) && 0 < c < |d.lexemes|
  {
    assert End(d.lexemes, c - 1) <= |src| by { Offsets(src, d, c - 1); }
    var e := End(d.lexemes, c - 1);
    if comma then src[..e] + "," + src[e..] else src
  }

  lemma StandsShape(d: Doc, i: nat, v: ArrayView)
    requires Stands(d, i, v)
    ensures |v.head| >= 1 && |Unparse(v)| == |v.head| + |Flat(v.parts)| + 1
    ensures i + |Unparse(v)| <= |d.lexemes|
  {
  }

  lemma StandsBounds(src: string, d: Doc, i: nat, v: ArrayView)
    requires Parse(src) == Ok(d) && Stands(d, i, v)
    ensures var ls, c, first := d.lexemes, i + |Unparse(v)| - 1, i + |v.head|;
      && i < first <= c < |ls| && |v.head| >= 1
      && Start(ls, first - 1) <= |src| && Start(ls, first) <= |src| && Start(ls, c) <= |src| && End(ls, c - 1) <= |src|
  {
    hide Parse, Start, End, Stands, Unparse, Flat, Flatten, Pieces;
    StandsShape(d, i, v);
    var c, first := i + |Unparse(v)| - 1, i + |v.head|;
    Offsets(src, d, c);
    Offsets(src, d, c - 1);
    Offsets(src, d, first - 1);
    Offsets(src, d, first);
  }

  /** A new entry of the array v, whose first token is token i. */
  function InsertEntry(src: string, d: Doc, i: nat, v: ArrayView, path: seq<string>, value: string): string
    requires Parse(src) == Ok(d) && Stands(d, i, v) && path != []
  {
    hide Parse, Stands, Unparse, Start, End, InsertLine;
    var ls := d.lexemes;
    var c, first := i + |Unparse(v)| - 1, i + |v.head|;
    var comma := NeedsComma(v);
    StandsBounds(src, d, i, v);
    InsertLine(WithComma(src, d, c, comma), Start(ls, c) + (if comma then 1 else 0), Start(ls, first - 1),
      if v.parts == [] then None else Some(Start(ls, first)), path, value)
  }

  // ----- what the new entry parses to -----

  lemma LineStartIs(s: string, n: nat)
    requires n <= |s| && (n > 0 ==> s[n - 1] == '\n') && forall i :: n <= i < |s| ==> s[i] != '\n'
    ensures LineStart(s) == n
  {
  }

  /** When only spaces precede the closing bracket on its line, the line starts at
      a piece of the gap, right after a line break that is a blank. */
  lemma {:induction false} LineInGap(src: string, d: Doc, c: nat, k: nat) returns (k': nat)
    requires Parse(src) == Ok(d) && 0 < c < |d.lexemes| && k <= |d.lexemes[c].gap|
    requires d.lexemes[c].token.kind != Open
    requires |d.lexemes[c - 1].Txt()| == 1 && Firm(d.lexemes[c - 1].Txt()[0])
    requires var f := Flatten(Before(d, c, k)); AllSpace(f[LineStart(f)..])
    ensures k' <= k && |Flatten(Before(d, c, k'))| == LineStart(Flatten(Before(d, c, k)))
    ensures k' > 0 ==> d.lexemes[c].gap[k' - 1].kind == Blank
  {
    hide Parse, Flatten, Pieces, Look, Before, LineStart, AllSpace, IsLineComment;
    var f := Flatten(Before(d, c, k));
    if k == 0 {
      k' := 0;
      LineAtToken(d, c);
    } else {
      var p := d.lexemes[c].gap[k - 1];
      var g := Flatten(Before(d, c, k - 1));
      GapPiece(src, d, c, k - 1);
      BeforeOne(d, c, k - 1);
      if LineStart(f) == |f| {
        k' := k;
        LineBreakAt(f, g, p);
      } else if p.kind == Blank {
        LineGoesOn(f, g, p);
        k' := LineInGap(src, d, c, k - 1);
      } else {
        CommentLine(f, g, p);
        assert false;
      }
    }
  }

  lemma LineAtToken(d: Doc, c: nat)
    requires 0 < c < |d.lexemes| && |d.lexemes[c - 1].Txt()| == 1 && Firm(d.lexemes[c - 1].Txt()[0])
    requires var f := Flatten(Before(d, c, 0)); AllSpace(f[LineStart(f)..])
    ensures |Flatten(Before(d, c, 0))| == LineStart(Flatten(Before(d, c, 0)))
  {
    hide Flatten, Pieces;
    LastPiece(d.lexemes, c);
    FlattenLast(Before(d, c, 0));
  }

  lemma BeforeOne(d: Doc, c: nat, k: nat)
    requires c < |d.lexemes| && k < |d.lexemes[c].gap|
    ensures Flatten(Before(d, c, k + 1)) == Flatten(Before(d, c, k)) + d.lexemes[c].gap[k].text
  {
    hide Flatten, Pieces;
    var p := d.lexemes[c].gap[k];
    assert Before(d, c, k + 1) == Before(d, c, k) + [p];
    FlattenConcat(Before(d, c, k), [p]);
    FlattenOne(p);
  }

  /** Behind a line break stands the start of a line. */
  lemma LineBreakAt(f: string, g: string, p: Piece)
    requires f == g + p.text && p.text != "" && LineStart(f) == |f| && (p.kind == Blank || p.kind == Comment)
    requires p.kind == Comment ==>
      if IsLineComment(p) then forall i :: 0 <= i < |p.text| ==> p.text[i] != '\n' && p.text[i] != '\r' else p.text[|p.text| - 1] == '/'
    ensures p.kind == Blank
  {
  }

  lemma LineGoesOn(f: string, g: string, p: Piece)
    requires f == g + p.text && |p.text| == 1 && LineStart(f) < |f| && AllSpace(f[LineStart(f)..])
    ensures LineStart(f) == LineStart(g) && AllSpace(g[LineStart(g)..])
  {
  }

  lemma FlattenLast(ps: seq<Piece>)
    requires ps != [] && ps[|ps| - 1].text != ""
    ensures Flatten(ps) != "" && Flatten(ps)[|Flatten(ps)| - 1] == ps[|ps| - 1].text[|ps[|ps| - 1].text| - 1]
  {
    var n := |ps| - 1;
    assert ps == ps[..n] + [ps[n]];
    FlattenConcat(ps[..n], [ps[n]]);
    FlattenOne(ps[n]);
  }

  /** A line that ends in a comment is not all spaces. */
  lemma CommentLine(f: string, g: string, p: Piece)
    requires f == g + p.text && p.text != ""
    requires p.text[0] == '#' || p.text[0] == '/'
    requires if IsLineComment(p) then forall i :: 0 <= i < |p.text| ==> p.text[i] != '\n' else p.text[|p.text| - 1] == '/'
    requires LineStart(f) < |f|
    ensures !AllSpace(f[LineStart(f)..])
  {
    var n := LineStart(f);
    if IsLineComment(p) {
      forall i | |g| <= i < |f|
        ensures f[i] != '\n'
      {
        assert f[i] == p.text[i - |g|];
      }
      assert f[n..][|g| - n] == p.text[0];
    } else {
      assert f[n..][|f| - 1 - n] == '/';
    }
  }

  lemma AppendFlat(v: ArrayView, p: Part, gap: seq<Piece>)
    requires ValidArray(v)
    ensures Unparse(Append(v, p, gap)) ==
      Unparse(v)[..|Unparse(v)| - 1] + (if NeedsComma(v) then [COMMA] else []) + Flat([p]) + [Lexeme(gap, v.close.token)]
  {
    hide Flat;
    var n := |v.parts|;
    var w := Append(v, p, gap);
    var entries := w.parts[..n];
    assert w.parts == entries + [p];
    FlatConcat(entries, [p]);
    assert Unparse(v)[..|Unparse(v)| - 1] == v.head + Flat(v.parts);
    if n > 0 {
      FlatAt(v.parts, n - 1);
      FlatAt(entries, n - 1);
      assert entries[..n - 1] == v.parts[..n - 1];
      assert v.parts[n..] == [] && entries[n..] == [];
      FlatEmpty();
      assert ValidPart(v.parts[n - 1]);
    } else {
      assert entries == v.parts;
    }
  }

  lemma FlatEmpty()
    ensures Flat([]) == []
  {
  }

  lemma {:induction false} NestedWellFormed(gap: seq<Piece>, keys: seq<string>, value: seq<Piece>, indent: string, eol: string)
    requires Trivia(gap) && forall i :: 0 <= i < |value| ==> Plain(value[i])
    ensures WellFormed(Nested(gap, keys, value, indent, eol))
    decreases |keys|
  {
    hide SingleQuoted, WellFormed, Trivia, Plain, Blanks;
    if keys == [] {
      ValueWellFormed(gap, value);
    } else {
      var sub := Nested(Blanks(" "), keys[1..], value, indent + "    ", eol);
      NestedWellFormed(Blanks(" "), keys[1..], value, indent + "    ", eol);
      var lead := [Lexeme(Blanks(eol + indent + "    "), Piece(Quoted, SingleQuoted(keys[0]))), Lexeme(Blanks(" "), ARROW)];
      var view := NestedView(gap, keys, value, indent, eol);
      var part := EntryPart(Blanks(eol + indent + "    "), keys[0], sub);
      assert view.parts == [part] && [part][1..] == [];
      assert Flat([part]) == lead + sub + [COMMA] + [];
      assert lead + sub + [COMMA] + [] == lead + sub + [COMMA];
      FramedWellFormed(view.head[0], lead, sub, view.close);
    }
  }

  lemma ValueWellFormed(gap: seq<Piece>, value: seq<Piece>)
    requires Trivia(gap) && forall i :: 0 <= i < |value| ==> Plain(value[i])
    ensures WellFormed(ValueLexemes(gap, value))
  {
  }

  lemma FramedWellFormed(open: Lexeme, lead: seq<Lexeme>, sub: seq<Lexeme>, close: Lexeme)
    requires Trivia(open.gap) && IsToken(open.token) && Trivia(close.gap) && IsToken(close.token) && WellFormed(sub)
    requires |lead| == 2 && Trivia(lead[0].gap) && IsToken(lead[0].token) && Trivia(lead[1].gap) && IsToken(lead[1].token)
    ensures WellFormed([open] + (lead + sub + [COMMA]) + [close])
  {
    hide Trivia, IsToken;
    assert WellFormed([open]) && WellFormed([close]);
    assert WellFormed(lead);
    CommaWellFormed();
    WellFormedConcat(lead, sub);
    WellFormedConcat(lead + sub, [COMMA]);
    WellFormedConcat([open], lead + sub + [COMMA]);
    WellFormedConcat([open] + (lead + sub + [COMMA]), [close]);
  }

  lemma CommaWellFormed()
    ensures WellFormed([COMMA])
  {
  }

  /** The tokens of the new entry. */
  function NewEntry(gap: seq<Piece>, path: seq<string>, value: string, indent: string, eol: string): Part
    requires path != [] && IsLiteral(value)
  {
    EntryPart(gap, path[0], Nested(Blanks(" "), path[1..], LiteralPieces(value), indent, eol))
  }

  /** A bracket is not inside a line comment. */
  lemma NotLineComment(src: string, d: Doc, c: nat)
    requires Parse(src) == Ok(d) && c < |d.lexemes| && IsClose(d.lexemes[c].Txt())
    ensures !Swallowed(d.lexemes[c])
    ensures d.lexemes[c].gap != [] ==> d.lexemes[c].gap[|d.lexemes[c].gap| - 1].kind != Html
  {
    hide Parse, Flatten, Pieces;
    var g := d.lexemes[c].gap;
    ModeAt(src, d, c);
    if g != [] {
      GapPiece(src, d, c, |g| - 1);
      FlattenHead(Behind(d, c, |g|));
    }
  }

  function NewSub(path: seq<string>, value: string, indent: string, eol: string): seq<Lexeme>
    requires path != [] && IsLiteral(value)
  {
    Nested(Blanks(" "), path[1..], LiteralPieces(value), indent, eol)
  }

  lemma NewSubReads(path: seq<string>, value: string, indent: string, eol: string)
    requires path != [] && IsLiteral(value) && AllBlank(indent) && AllBlank(eol)
    ensures var sub := NewSub(path, value, indent, eol);
      && Neutral(sub) && sub != [] && WellFormed(sub)
      && forall r :: Reads(Pieces(sub), " " + NestedText(path[1..], value, indent, eol), "," + r)
  {
    hide Reads, LiteralPieces, IsLiteral, Nested, NestedText, Pieces, ArgLength;
    LiteralPiecesNonempty(value);
    NestedLookup(Blanks(" "), path[1..], LiteralPieces(value), indent, eol);
    NestedWellFormed(Blanks(" "), path[1..], LiteralPieces(value), indent, eol);
    forall r
      ensures Reads(Pieces(NewSub(path, value, indent, eol)), " " + NestedText(path[1..], value, indent, eol), "," + r)
    {
      ReadsNested(" ", path[1..], value, indent, eol, "," + r);
    }
  }

  /** An entry in the gap of a closing bracket, with its own blanks around it. */
  lemma EntryParse(src: string, d: Doc, c: nat, k: nat, lead: string, path: seq<string>, value: string, indent: string, eol: string, trail: string)
    requires Parse(src) == Ok(d) && 0 < c < |d.lexemes| && k <= |d.lexemes[c].gap| && IsClose(d.lexemes[c].Txt())
    requires path != [] && IsLiteral(value) && AllBlank(lead) && lead != "" && AllBlank(indent) && AllBlank(eol) && AllBlank(trail)
    requires k > 0 ==> d.lexemes[c].gap[k - 1].kind != Html && !IsLineComment(d.lexemes[c].gap[k - 1])
    ensures var ls, gap := d.lexemes, d.lexemes[c].gap;
      var pos := |Flatten(Before(d, c, k))|;
      && pos <= |src|
      && Parse(src[..pos] + (lead + SingleQuoted(path[0]) + " => " + NestedText(path[1..], value, indent, eol) + "," + trail) + src[pos..]) == Ok(Doc(
        ls[..c] + Flat([NewEntry(gap[..k] + Blanks(lead), path, value, indent, eol)]) + ([Lexeme(Blanks(trail) + gap[k..], ls[c].token)] + ls[c + 1..]), d.tail))
  {
    hide Parse, Flatten, Pieces, IsLiteral, LiteralPieces, EntryPart, Blanks, SingleQuoted, Flat, NestedText, Nested, Reads, ArgLength, Before, IsClose;
    var t := NestedText(path[1..], value, indent, eol);
    NewSubReads(path, value, indent, eol);
    InsertEntryAt(src, d, c, k, lead, path[0], NewSub(path, value, indent, eol), " " + t, trail);
    EntryText(lead, SingleQuoted(path[0]), t, trail);
  }

  lemma EntryText(lead: string, q: string, t: string, trail: string)
    ensures lead + q + " =>" + (" " + t) + "," + trail == lead + q + " => " + t + "," + trail
  {
  }

  lemma InsertLineParse(src: string, d: Doc, c: nat, opening: nat, firstKey: Option<nat>, path: seq<string>, value: string)
      returns (gap: seq<Piece>, indent: string, eol: string, last: seq<Piece>)
    requires Parse(src) == Ok(d) && 0 < c < |d.lexemes| && IsClose(d.lexemes[c].Txt())
    requires |d.lexemes[c - 1].Txt()| == 1 && Firm(d.lexemes[c - 1].Txt()[0])
    requires opening <= |src| && (firstKey.Some? ==> firstKey.value <= |src|) && path != [] && IsLiteral(value)
    ensures Start(d.lexemes, c) <= |src|
    ensures Parse(InsertLine(src, Start(d.lexemes, c), opening, firstKey, path, value)) == Ok(Doc(
      d.lexemes[..c] + Flat([NewEntry(gap, path, value, indent, eol)]) + ([Lexeme(last, d.lexemes[c].token)] + d.lexemes[c + 1..]), d.tail))
  {
    hide Parse, Flatten, Pieces, IsLiteral, SingleQuoted, Flat, NestedText, NewEntry, Indent, AllSpace, EOL, EntryIndent, IsClose, Blanks, LineStart;
    var g := d.lexemes[c].gap;
    Offsets(src, d, c);
    var close := Start(d.lexemes, c);
    eol, indent := EOL(src), EntryIndent(src, opening, firstKey);
    var base := Indent(src, opening);
    assert g[..|g|] == g && Before(d, c, |g|) == Pieces(d.lexemes[..c]) + g;
    var n := LineStart(src[..close]);
    if AllSpace(src[n..close]) {
      assert d.lexemes[c].token.kind != Open by { ModeAt(src, d, c); KindOfClose(d.lexemes[c].token); }
      assert src[..close][n..] == src[n..close];
      var k := LineInGap(src, d, c, |g|);
      EntryParse(src, d, c, k, indent, path, value, indent, eol, eol);
      gap, last := g[..k] + Blanks(indent), Blanks(eol) + g[k..];
    } else {
      NotLineComment(src, d, c);
      EntryParse(src, d, c, |g|, eol + indent, path, value, indent, eol, eol + base);
      gap, last := g[..|g|] + Blanks(eol + indent), Blanks(eol + base) + g[|g|..];
      LineText(src[..close], eol, indent, SingleQuoted(path[0]), NestedText(path[1..], value, indent, eol), base, src[close..]);
    }
  }

  lemma KindOfClose(p: Piece)
    requires IsClose(p.text)
    ensures p.text != "<?php"
  {
  }

  lemma LineText(a: string, eol: string, indent: string, q: string, t: string, base: string, b: string)
    ensures a + ((eol + indent) + q + " => " + t + "," + (eol + base)) + b == a + eol + (indent + q + " => " + t + "," + eol) + base + b
  {
  }

  /** Writing an entry into an array of the document appends it to the array. */
  lemma InsertParse(src: string, d: Doc, i: nat, v: ArrayView, path: seq<string>, value: string)
      returns (gap: seq<Piece>, indent: string, eol: string, last: seq<Piece>)
    requires Parse(src) == Ok(d) && Stands(d, i, v) && path != [] && IsLiteral(value)
    ensures Parse(InsertEntry(src, d, i, v, path, value)) == Ok(Doc(
      d.lexemes[..i] + Unparse(Append(v, NewEntry(gap, path, value, indent, eol), last)) + d.lexemes[i + |Unparse(v)|..], d.tail))
  {
    hide Parse, Flatten, Pieces, IsLiteral, Flat, NewEntry, InsertLine, Start, End, ValidArray, Unparse, Append, Stands, WithComma;
    var ls := d.lexemes;
    var n := |Unparse(v)|;
    var c, first := i + n - 1, i + |v.head|;
    var comma := NeedsComma(v);
    StandsBounds(src, d, i, v);
    StandsClose(d, i, v);
    CommaParse(src, d, c, comma);
    BeforeClose(d, i, v);
    var ls1 := if comma then ls[..c] + [COMMA] + ls[c..] else ls;
    var c1 := if comma then c + 1 else c;
    gap, indent, eol, last := InsertLineParse(WithComma(src, d, c, comma), Doc(ls1, d.tail), c1,
      Start(ls, first - 1), if v.parts == [] then None else Some(Start(ls, first)), path, value);
    AppendInPlace(d, i, v, NewEntry(gap, path, value, indent, eol), last);
  }

  lemma StandsClose(d: Doc, i: nat, v: ArrayView)
    requires Stands(d, i, v)
    ensures var c := i + |Unparse(v)| - 1; c < |d.lexemes| && d.lexemes[c] == v.close && IsClose(v.close.Txt())
  {
  }

  lemma AppendInPlace(d: Doc, i: nat, v: ArrayView, p: Part, last: seq<Piece>)
    requires Stands(d, i, v)
    ensures var ls, c, comma := d.lexemes, i + |Unparse(v)| - 1, NeedsComma(v);
      var ls1 := if comma then ls[..c] + [COMMA] + ls[c..] else ls;
      var c1 := if comma then c + 1 else c;
      c < |ls| && ls1[..c1] + Flat([p]) + ([Lexeme(last, v.close.token)] + ls1[c1 + 1..])
        == ls[..i] + Unparse(Append(v, p, last)) + ls[i + |Unparse(v)|..]
  {
    hide Flat, Append, Unparse, ValidArray;
    var ls, u, comma := d.lexemes, Unparse(v), NeedsComma(v);
    StandsClose(d, i, v);
    StandsShape(d, i, v);
    assert ls[i..i + |u|] == u;
    AppendFlat(v, p, last);
    var c := i + |u| - 1;
    var ls1 := if comma then ls[..c] + [COMMA] + ls[c..] else ls;
    var c1 := if comma then c + 1 else c;
    var x := if comma then [COMMA] else [];
    assert ls[..c] == ls[..i] + u[..|u| - 1];
    assert ls1[..c1] == ls[..c] + x;
    assert ls1[c1 + 1..] == ls[i + |u|..];
  }

  lemma CommaParse(src: string, d: Doc, c: nat, comma: bool)
    requires Parse(src) == Ok(d) && 0 < c < |d.lexemes| && IsClose(d.lexemes[c].Txt())
    ensures var ls1 := if comma then d.lexemes[..c] + [COMMA] + d.lexemes[c..] else d.lexemes;
      var c1 := if comma then c + 1 else c;
      && Parse(WithComma(src, d, c, comma)) == Ok(Doc(ls1, d.tail))
      && |src| <= |WithComma(src, d, c, comma)|
      && Start(ls1, c1) == Start(d.lexemes, c) + (if comma then 1 else 0)
  {
    hide Parse, Flatten, Pieces, End;
    if comma {
      Offsets(src, d, c - 1);
      ModeAt(src, d, c);
      KindOfClose(d.lexemes[c].token);
      InsertComma(src, d, c);
      var ls := d.lexemes;
      var ls1 := ls[..c] + [COMMA] + ls[c..];
      assert ls1[..c + 1] == ls[..c] + [COMMA] && ls1[c + 1] == ls[c];
      PiecesConcat(ls[..c], [COMMA]);
      PiecesOne(COMMA);
      var a, g := Pieces(ls[..c]), ls[c].gap;
      FlattenConcat(a + [COMMA.token], g);
      FlattenConcat(a, [COMMA.token]);
      FlattenConcat(a, g);
      FlattenOne(COMMA.token);
      assert [] + [COMMA.token] == [COMMA.token];
    } else {
      assert d == Doc(d.lexemes, d.tail);
    }
  }

  /** A comma, possibly the one just written, or the opening bracket stands before
      the closing bracket. */
  lemma BeforeClose(d: Doc, i: nat, v: ArrayView)
    requires Stands(d, i, v)
    ensures i + |Unparse(v)| >= 2
    ensures !NeedsComma(v) ==>
      var t := d.lexemes[i + |Unparse(v)| - 2].Txt(); |t| == 1 && Firm(t[0])
  {
    hide ArgLength, DistinctKeys;
    var u := Unparse(v);
    var n := |v.parts|;
    assert u == v.head + Flat(v.parts) + [v.close];
    var t := d.lexemes[i + |u| - 2].Txt();
    assert t == u[|u| - 2].Txt();
    if n == 0 {
      FlatEmpty();
      assert u[|u| - 2] == v.head[|v.head| - 1];
      assert t == "[" || t == "(";
    } else {
      FlatAt(v.parts, n - 1);
      assert v.parts[n..] == [];
      assert ValidPart(v.parts[n - 1]);
      if v.parts[n - 1].comma != [] {
        assert Flat(v.parts)[|Flat(v.parts)| - 1] == v.parts[n - 1].comma[0];
        assert t == ",";
      }
    }
  }
}
