/** patchPHPArrayValue and its laws: what is written is read back, every other
    path reads as before, and a second run changes nothing. */
module PhpArrayLens {
  import opened Text
  import opened PhpLexer
  import S = Sequences
  import opened PhpTokens
  import opened PhpLiterals
  import opened PhpSplice
  import opened PhpArray
  import opened PhpArrayPatch
  import SC = PhpScalars
  import EN = PhpEntries

  // ----- paths -----

  /** How many keys of the path are found. */
  function Depth(ls: seq<Lexeme>, path: seq<string>): (n: nat)
    ensures n <= |path|
    decreases |path|
  {
    if path == [] then 0
    else
      var r := ParseArray(ls);
      if r.Err? then 0
      else
        (assert ValidArray(r.value) by { ParseUnparse(ls); }
        var k := FindKey(r.value.parts, path[0]);
        if k < 0 then 0 else 1 + Depth(r.value.parts[k].arg[2..], path[1..]))
  }

  /** A path that leads nowhere leads, up to some key, to an array without that key. */
  lemma {:induction false} DepthMissing(ls: seq<Lexeme>, path: seq<string>)
    requires Lookup(ls, path) == Missing
    ensures var n := Depth(ls, path);
      && n < |path| && Lookup(ls, path[..n]).Value?
      && var r := ParseArray(Lookup(ls, path[..n]).tokens);
        r.Ok? && ValidArray(r.value) && FindKey(r.value.parts, path[n]) < 0
    decreases |path|
  {
    hide ParseArray, FindKey;
    ParseUnparse(ls);
    var v := ParseArray(ls).value;
    var k := FindKey(v.parts, path[0]);
    if k >= 0 {
      var sub := v.parts[k].arg[2..];
      DepthMissing(sub, path[1..]);
      var n := Depth(sub, path[1..]);
      assert path[..n + 1][0] == path[0] && path[..n + 1][1..] == path[1..][..n];
    } else {
      assert path[..0] == [];
    }
  }

  lemma {:induction false} LookupConcat(ls: seq<Lexeme>, p: seq<string>, q: seq<string>)
    requires Lookup(ls, p).Value?
    ensures Lookup(ls, p + q) == Lookup(Lookup(ls, p).tokens, q)
    decreases |p|
  {
    hide ParseArray, FindKey;
    if p == [] {
      assert p + q == q;
    } else {
      ParseUnparse(ls);
      var v := ParseArray(ls).value;
      var k := FindKey(v.parts, p[0]);
      assert (p + q)[0] == p[0] && (p + q)[1..] == p[1..] + q;
      LookupConcat(v.parts[k].arg[2..], p[1..], q);
    }
  }

  lemma SubSlice<T>(s: seq<T>, i: nat, sub: seq<T>, j: nat, m: nat)
    requires i + |sub| <= |s| && s[i..i + |sub|] == sub && j + m <= |sub|
    ensures s[i + j..i + j + m] == sub[j..j + m]
    ensures forall k :: 0 <= k < |sub| ==> s[i + k] == sub[k]
  {
    forall k | 0 <= k < |sub|
      ensures s[i + k] == sub[k]
    {
      assert s[i + k] == s[i..i + |sub|][k];
    }
  }

  /** The value of an entry stands between `=>` and a comma or closing bracket. */
  lemma PartContext(v: ArrayView, k: nat)
    requires ValidArray(v) && k < |v.parts|
    ensures |v.parts[k].arg| >= 3
    ensures var ls, i, n := Unparse(v), |v.head| + |Flat(v.parts[..k])| + 2, |v.parts[k].arg| - 2;
      && i + n < |ls| && ls[i - 1].Txt() == "=>" && |ls[i + n].Txt()| == 1 && Firm(ls[i + n].Txt()[0])
      && ls[i..i + n] == v.parts[k].arg[2..]
  {
    hide ArgLength, Flat, LiteralKey;
    var ls, arg := Unparse(v), v.parts[k].arg;
    assert ValidPart(v.parts[k]) && PartKey(v.parts[k]).Ok?;
    FlatAt(v.parts, k);
    PartInPlace(v, k, []);
    var i, n := |v.head| + |Flat(v.parts[..k])| + 2, |arg| - 2;
    var pre := v.head + Flat(v.parts[..k]);
    var post := v.parts[k].comma + Flat(v.parts[k + 1..]) + [v.close];
    assert ls == pre + arg + post;
    assert ls[i - 1] == arg[1];
    assert ls[i + n] == post[0];
    if v.parts[k].comma == [] {
      assert v.parts[k + 1..] == [];
      FlatEmpty();
      assert post[0] == v.close;
    }
  }

  /** val stands at token i of ls, between `=>` and a comma or closing bracket. */
  predicate Placed(ls: seq<Lexeme>, i: nat, val: seq<Lexeme>) {
    && val != [] && 0 < i && i + |val| < |ls| && ls[i..i + |val|] == val
    && ls[i - 1].Txt() == "=>" && |ls[i + |val|].Txt()| == 1 && Firm(ls[i + |val|].Txt()[0])
  }

  lemma PlacedWithin(ls: seq<Lexeme>, i: nat, sub: seq<Lexeme>, j: nat, val: seq<Lexeme>)
    requires i + |sub| <= |ls| && ls[i..i + |sub|] == sub && Placed(sub, j, val)
    ensures Placed(ls, i + j, val)
  {
    SubSlice(ls, i, sub, j, |val|);
    assert ls[i + (j - 1)] == sub[j - 1] && ls[i + (j + |val|)] == sub[j + |val|];
  }

  lemma {:induction false} FocusPlaced(ls: seq<Lexeme>, path: seq<string>)
    requires path != [] && Lookup(ls, path).Value?
    ensures Placed(ls, Focus(ls, path), Lookup(ls, path).tokens)
    decreases |path|
  {
    hide ParseArray, FindKey, Flat, Unparse, LiteralKey, Placed;
    ParseUnparse(ls);
    var v := ParseArray(ls).value;
    var k := FindKey(v.parts, path[0]);
    PartPlaced(ls, v, k);
    if |path| > 1 {
      var sub := v.parts[k].arg[2..];
      FocusPlaced(sub, path[1..]);
      PlacedWithin(ls, |v.head| + |Flat(v.parts[..k])| + 2, sub, Focus(sub, path[1..]), Lookup(sub, path[1..]).tokens);
    } else {
      assert path[1..] == [];
    }
  }

  lemma PartPlaced(ls: seq<Lexeme>, v: ArrayView, k: nat)
    requires ValidArray(v) && k < |v.parts| && ls == Unparse(v)
    ensures |v.parts[k].arg| >= 3
    ensures var i, sub := |v.head| + |Flat(v.parts[..k])| + 2, v.parts[k].arg[2..];
      i + |sub| <= |ls| && ls[i..i + |sub|] == sub && Placed(ls, i, sub)
  {
    hide ArgLength, Flat, LiteralKey, Unparse;
    PartContext(v, k);
  }

  /** What a path leads to in an array is a neutral expression. */
  lemma {:induction false} LookupNeutral(ls: seq<Lexeme>, path: seq<string>)
    requires Neutral(ls) && ls != [] && Lookup(ls, path).Value?
    ensures Neutral(Lookup(ls, path).tokens) && Lookup(ls, path).tokens != []
    decreases |path|
  {
    hide ParseArray, FindKey, LiteralKey, ArgLength;
    if path != [] {
      ParseUnparse(ls);
      var v := ParseArray(ls).value;
      var k := FindKey(v.parts, path[0]);
      assert ValidPart(v.parts[k]);
      EntryHead(v.parts[k].arg);
      LookupNeutral(v.parts[k].arg[2..], path[1..]);
    }
  }

  // ----- reading a source -----

  /** What a path reads in the array that the source returns. */
  function Read(src: string, path: seq<string>): Target {
    match Parse(src)
    case Err(_) => NotArray
    case Ok(d) =>
      match Returned(d.lexemes)
      case Err(_) => NotArray
      case Ok(r) =>
        assert r.0 <= r.1 <= |d.lexemes| by { ReturnedBounds(d.lexemes); }
        Lookup(d.lexemes[r.0..r.1], path)
  }

  /** The text of a value, from its first token to its last. */
  function ValueText(val: seq<Lexeme>): string
    requires val != []
  {
    val[0].Txt() + Flatten(Pieces(val[1..]))
  }

  /** A literal in place of a value has its own text. */
  lemma LiteralText(gap: seq<Piece>, v: string)
    requires SC.IsLiteral(v)
    ensures SC.LiteralPieces(v) != []
    ensures ValueText(EN.ValueLexemes(gap, SC.LiteralPieces(v))) == v
  {
    hide Scan, Lex;
    var ps := SC.LiteralPieces(v);
    var ls := EN.ValueLexemes(gap, ps);
    ScanLexes(v, true);
    EN.BareValuePieces(ls[1..], ps[1..]);
  }

  lemma ReturnedBounds(ls: seq<Lexeme>)
    requires Returned(ls).Ok?
    ensures var (s, e) := Returned(ls).value; 0 < s <= e < |ls| && ParseArray(ls[s..e]).Ok?
  {
    hide MatchLength, NextReturn, ParseArray, ArrayEnd;
  }

  /** The returned array is a neutral expression. */
  lemma ReturnedNeutral(ls: seq<Lexeme>)
    requires Returned(ls).Ok?
    ensures var (s, e) := Returned(ls).value; 0 < s <= e < |ls| && Neutral(ls[s..e]) && ls[s..e] != [] && ParseArray(ls[s..e]).Ok?
  {
    hide Returned, ParseArray, ArgLength, ValidArray;
    ReturnedBounds(ls);
    var (s, e) := Returned(ls).value;
    ParseUnparse(ls[s..e]);
    UnparseParse(ParseArray(ls[s..e]).value);
  }

  /** Where a value of the returned array stands in the document. */
  lemma ValueInDoc(src: string, d: Doc, s: nat, e: nat, path: seq<string>)
    requires Parse(src) == Ok(d) && Returned(d.lexemes) == Ok((s, e)) && path != [] && Read(src, path).Value?
    ensures s <= e <= |d.lexemes| && Lookup(d.lexemes[s..e], path) == Read(src, path)
    ensures Placed(d.lexemes, s + Focus(d.lexemes[s..e], path), Read(src, path).tokens)
  {
    hide Parse, Returned, Lookup, Focus, Placed;
    ReturnedBounds(d.lexemes);
    var arr := d.lexemes[s..e];
    FocusPlaced(arr, path);
    PlacedWithin(d.lexemes, s, arr, Focus(arr, path), Lookup(arr, path).tokens);
  }

  /** patchPHPArrayValue */
  function PatchArray(src: string, path: seq<string>, value: string): Result<string, PhpError> {
    if path == [] then Err(EmptyPath)
    else
      match Parse(src)
      case Err(e) => Err(e)
      case Ok(d) =>
        match Returned(d.lexemes)
        case Err(e) => Err(e)
        case Ok(r) =>
          match Read(src, path)
          case NotArray => Err(NotLiteralArray)
          case Value(val) => Ok(ReplaceText(src, d, r.0, r.1, path, value))
          case Missing => Ok(InsertText(src, d, r.0, r.1, path, value))
  }

  /** The value found at the path gives way. */
  function ReplaceText(src: string, d: Doc, s: nat, e: nat, path: seq<string>, value: string): string
    requires Parse(src) == Ok(d) && Returned(d.lexemes) == Ok((s, e)) && path != [] && Read(src, path).Value?
  {
    hide Parse, Returned, Lookup, Focus, Read, Start, End;
    ValueInDoc(src, d, s, e, path);
    var i, n := s + Focus(d.lexemes[s..e], path), |Read(src, path).tokens|;
    ValueOffsets(src, d, i, n);
    src[..Start(d.lexemes, i)] + value + src[End(d.lexemes, i + n - 1)..]
  }

  /** The deepest array that the path reaches gets a new entry. */
  function InsertText(src: string, d: Doc, s: nat, e: nat, path: seq<string>, value: string): string
    requires Parse(src) == Ok(d) && Returned(d.lexemes) == Ok((s, e)) && Read(src, path) == Missing
  {
    hide Parse, Returned, Read, Focus, Lookup, ParseArray, Stands, Depth;
    HolderStands(src, d, s, e, path);
    var arr := d.lexemes[s..e];
    var n := Depth(arr, path);
    InsertEntry(src, d, s + Focus(arr, path[..n]), ParseArray(Lookup(arr, path[..n]).tokens).value, path[n..], value)
  }

  predicate ValueBounds(src: string, d: Doc, i: nat, n: nat) {
    n > 0 && i + n <= |d.lexemes| && Start(d.lexemes, i) <= End(d.lexemes, i + n - 1) <= |src|
  }

  /** The array that a path leads to stands in the document. */
  predicate Holder(d: Doc, s: nat, e: nat, path: seq<string>) {
    && s <= e <= |d.lexemes| && Lookup(d.lexemes[s..e], path).Value?
    && var r := ParseArray(Lookup(d.lexemes[s..e], path).tokens);
      r.Ok? && Stands(d, s + Focus(d.lexemes[s..e], path), r.value)
  }

  lemma ValueOffsets(src: string, d: Doc, i: nat, n: nat)
    requires Parse(src) == Ok(d) && 0 < n && i + n <= |d.lexemes|
    ensures ValueBounds(src, d, i, n)
    ensures src[Start(d.lexemes, i)..End(d.lexemes, i + n - 1)] == ValueText(d.lexemes[i..i + n])
  {
    hide Parse, Flatten, Pieces, Start, End, ValueText;
    var ls := d.lexemes;
    Offsets(src, d, i);
    Offsets(src, d, i + n - 1);
    ValueFlat(d, i, n);
    S.PrefixCut(src, Start(ls, i), End(ls, i + n - 1), ValueText(ls[i..i + n]));
  }

  lemma ValueFlat(d: Doc, i: nat, n: nat)
    requires 0 < n && i + n <= |d.lexemes|
    ensures var ls := d.lexemes; Flatten(Pieces(ls[..i + n - 1 + 1])) == Flatten(Pieces(ls[..i]) + ls[i].gap) + ValueText(ls[i..i + n])
  {
    hide Flatten, Pieces;
    var ls := d.lexemes;
    Between(d, i, i + n);
    FlattenConcat(Pieces(ls[..i]) + ls[i].gap, [ls[i].token] + Pieces(ls[i + 1..i + n]));
    FlattenConcat([ls[i].token], Pieces(ls[i + 1..i + n]));
    FlattenOne(ls[i].token);
    assert ls[i..i + n][1..] == ls[i + 1..i + n];
  }

  /** The piece at which a token starts. */
  lemma PieceOffset(src: string, d: Doc, i: nat) returns (k: nat)
    requires Parse(src) == Ok(d) && i < |d.lexemes|
    ensures Scan(src, false) == Ok(AllPieces(d)) && k <= |AllPieces(d)| && |Flatten(AllPieces(d)[..k])| == Start(d.lexemes, i)
  {
    hide Parse, Flatten, Pieces;
    ParseScan(src);
    CutAt(d, i);
    var pre := Pieces(d.lexemes[..i]) + d.lexemes[i].gap;
    k := |pre|;
    assert AllPieces(d)[..k] == pre;
  }

  lemma HolderStands(src: string, d: Doc, s: nat, e: nat, path: seq<string>)
    requires Parse(src) == Ok(d) && Returned(d.lexemes) == Ok((s, e)) && Read(src, path) == Missing
    ensures s <= e <= |d.lexemes|
    ensures Holder(d, s, e, path[..Depth(d.lexemes[s..e], path)]) && Depth(d.lexemes[s..e], path) < |path|
  {
    hide Parse, Returned, Lookup, Focus, ParseArray, Depth, Read, Holder;
    ReadIs(src, d, s, e, path);
    DepthMissing(d.lexemes[s..e], path);
    HolderIs(d, s, e, path[..Depth(d.lexemes[s..e], path)]);
  }

  lemma HolderIs(d: Doc, s: nat, e: nat, p: seq<string>)
    requires s <= e <= |d.lexemes| && Lookup(d.lexemes[s..e], p).Value? && ParseArray(Lookup(d.lexemes[s..e], p).tokens).Ok?
    ensures Holder(d, s, e, p)
  {
    hide Lookup, Focus, ParseArray, Stands, ValidArray, Unparse;
    var arr := d.lexemes[s..e];
    FocusSlice(arr, p);
    var val := Lookup(arr, p).tokens;
    ParseUnparse(val);
    SubSlice(d.lexemes, s, arr, Focus(arr, p), |val|);
    StandsIs(d, s + Focus(arr, p), ParseArray(val).value, val);
  }

  lemma FocusSlice(ls: seq<Lexeme>, path: seq<string>)
    requires Lookup(ls, path).Value?
    ensures var i, val := Focus(ls, path), Lookup(ls, path).tokens; i + |val| <= |ls| && ls[i..i + |val|] == val
  {
    hide Put;
    PutSplice(ls, path, []);
  }

  lemma ReadIs(src: string, d: Doc, s: nat, e: nat, path: seq<string>)
    requires Parse(src) == Ok(d) && Returned(d.lexemes) == Ok((s, e))
    ensures s <= e <= |d.lexemes| && Read(src, path) == Lookup(d.lexemes[s..e], path)
  {
    hide Parse, Returned, Lookup;
    ReturnedBounds(d.lexemes);
  }

  lemma StandsIs(d: Doc, i: nat, v: ArrayView, val: seq<Lexeme>)
    requires ValidArray(v) && Unparse(v) == val && i + |val| <= |d.lexemes| && d.lexemes[i..i + |val|] == val
    ensures Stands(d, i, v)
  {
  }
}
