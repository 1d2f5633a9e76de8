/** patchPHPArrayValue as a loop down the path. */
module PhpArrayPatcher {
  import opened Text
  import opened PhpLexer
  import opened PhpTokens
  import opened PhpLiterals
  import opened PhpSplice
  import opened PhpArray
  import opened PhpEntries
  import opened PhpArrayPatch
  import opened PhpArrayLens
  import opened PhpScanner
  import opened PhpArrayReader

  lemma {:induction false} FocusConcat(ls: seq<Lexeme>, p: seq<string>, q: seq<string>)
    requires Lookup(ls, p).Value? && Lookup(Lookup(ls, p).tokens, q).Value?
    ensures Lookup(ls, p + q).Value? && Focus(ls, p + q) == Focus(ls, p) + Focus(Lookup(ls, p).tokens, q)
    decreases |p|
  {
    hide ParseArray, FindKey, Flat;
    LookupConcat(ls, p, q);
    if p == [] {
      assert p + q == q;
    } else {
      ParseUnparse(ls);
      var v := ParseArray(ls).value;
      var k := FindKey(v.parts, p[0]);
      assert (p + q)[0] == p[0] && (p + q)[1..] == p[1..] + q;
      FocusConcat(v.parts[k].arg[2..], p[1..], q);
    }
  }

  /** The array that p leads to, and the node that stands for it. */
  ghost predicate AtNode(ls: seq<Lexeme>, s: nat, e: nat, p: seq<string>, node: ArrayNode) {
    && s <= e <= |ls| && Lookup(ls[s..e], p).Value?
    && var val := Lookup(ls[s..e], p).tokens;
      var at := s + Focus(ls[s..e], p);
      && at + |val| <= |ls| && ls[at..at + |val|] == val
      && ParseArray(val).Ok? && ValidArray(ParseArray(val).value) && node == NodeOf(ParseArray(val).value, at)
  }

  function ViewAt(ls: seq<Lexeme>, s: nat, e: nat, p: seq<string>): ArrayView
    requires s <= e <= |ls| && Lookup(ls[s..e], p).Value? && ParseArray(Lookup(ls[s..e], p).tokens).Ok?
  {
    ParseArray(Lookup(ls[s..e], p).tokens).value
  }

  lemma AtRoot(ls: seq<Lexeme>, s: nat, e: nat, node: ArrayNode)
    requires s <= e <= |ls| && ParseArray(ls[s..e]).Ok? && ValidArray(ParseArray(ls[s..e]).value) && node == NodeOf(ParseArray(ls[s..e]).value, s)
    ensures AtNode(ls, s, e, [], node)
  {
    hide ParseArray, ValidArray, NodeOf;
  }

  /** The search for a key among the entries. */
  method FindEntry(entries: seq<ArrayEntry>, key: string, ghost parts: seq<Part>, ghost at: nat) returns (k: int)
    requires (forall i :: 0 <= i < |parts| ==> PartKey(parts[i]).Ok?) && entries == EntriesOf(parts, at)
    ensures k == FindKey(parts, key)
  {
    hide PartKey, Ranges;
    k := 0;
    while k < |entries|
      invariant 0 <= k <= |entries| == |parts|
      invariant forall i :: 0 <= i < k ==> PartKey(parts[i]) != Ok(key)
    {
      if entries[k].key == key {
        FindFirst(parts, key, k);
        return;
      }
      k := k + 1;
    }
    FindNone(parts, key);
    k := -1;
  }

  lemma {:induction false} FindFirst(parts: seq<Part>, key: string, k: nat)
    requires k < |parts| && (forall i :: 0 <= i < |parts| ==> PartKey(parts[i]).Ok?)
    requires PartKey(parts[k]) == Ok(key) && forall i :: 0 <= i < k ==> PartKey(parts[i]) != Ok(key)
    ensures FindKey(parts, key) == k
  {
    hide PartKey;
    if k > 0 { FindFirst(parts[1..], key, k - 1); }
  }

  lemma FindNone(parts: seq<Part>, key: string)
    requires (forall i :: 0 <= i < |parts| ==> PartKey(parts[i]).Ok?) && forall i :: 0 <= i < |parts| ==> PartKey(parts[i]) != Ok(key)
    ensures FindKey(parts, key) == -1
  {
  }

  /** One step down the path. */
  lemma Descend(ls: seq<Lexeme>, s: nat, e: nat, p: seq<string>, node: ArrayNode, key: string)
    requires AtNode(ls, s, e, p, node) && FindKey(ViewAt(ls, s, e, p).parts, key) >= 0
    ensures var k := FindKey(ViewAt(ls, s, e, p).parts, key);
      var entry := node.entries[k];
      var arr := ls[s..e];
      && k < |node.entries| && entry.first <= entry.last <= |ls|
      && Lookup(arr, p + [key]) == Value(ls[entry.first..entry.last]) && s + Focus(arr, p + [key]) == entry.first
  {
    hide ParseArray, ValidParts, PartKey, Flat, Ranges, Unparse, ValidHead;
    var arr := ls[s..e];
    var val, at := Lookup(arr, p).tokens, s + Focus(arr, p);
    var v := ParseArray(val).value;
    var k := FindKey(v.parts, key);
    ParseUnparse(val);
    EntryStands(ls, at, v, k);
    LookupOne(val, key);
    LookupConcat(arr, p, [key]);
    FocusConcat(arr, p, [key]);
  }

  lemma LookupOne(val: seq<Lexeme>, key: string)
    requires ParseArray(val).Ok? && ValidArray(ParseArray(val).value)
    ensures var v := ParseArray(val).value;
      var k := FindKey(v.parts, key);
      if k < 0 then Lookup(val, [key]) == Missing
      else |v.parts[k].arg| >= 2 && Lookup(val, [key]) == Value(v.parts[k].arg[2..]) && Focus(val, [key]) == |v.head| + |Flat(v.parts[..k])| + 2
  {
    hide ParseArray, FindKey, Flat;
    assert [key][1..] == [];
  }

  lemma EntryStands(ls: seq<Lexeme>, at: nat, v: ArrayView, k: nat)
    requires ValidArray(v) && k < |v.parts| && at + |Unparse(v)| <= |ls| && ls[at..at + |Unparse(v)|] == Unparse(v)
    ensures var r := Ranges(v.parts, at + |v.head|)[k];
      && |v.parts[k].arg| >= 2 && r.0 == at + |v.head| + |Flat(v.parts[..k])| && r.0 + 2 <= r.1 <= |ls|
      && ls[r.0 + 2..r.1] == v.parts[k].arg[2..]
  {
    hide Flat, ValidParts, ValidHead, Ranges;
    assert PartKey(v.parts[k]).Ok?;
    var h, f := at + |v.head|, Flat(v.parts);
    UnparseSlice(ls, at, v.head, f, v.close);
    RangeSlices(v.parts, h, ls, k);
    RangeAt(v.parts, h, k);
    var r := Ranges(v.parts, h)[k];
    assert ls[r.0 + 2..r.1] == ls[r.0..r.1][2..];
  }

  lemma UnparseSlice(ls: seq<Lexeme>, at: nat, head: seq<Lexeme>, f: seq<Lexeme>, close: Lexeme)
    requires var u := head + f + [close]; at + |u| <= |ls| && ls[at..at + |u|] == u
    ensures at + |head| + |f| < |ls| && ls[at + |head|..at + |head| + |f|] == f
  {
    var u := head + f + [close];
    assert ls[at..at + |u|][|head|..|head| + |f|] == f;
  }

  // ----- adding an entry -----

  /** An expression does not end in a comma of its own. */
  lemma {:induction false} NeutralLast(a: seq<Lexeme>)
    requires Neutral(a) && a != []
    ensures !IsComma(a[|a| - 1])
    decreases |a|
  {
    hide MatchLength, Balanced;
    var m := AtomLength(a).value;
    AtomThrough(a, []);
    if m == |a| {
      if IsOpen(a[0].Txt()) { MatchIsGroup(a); assert a[..m] == a; }
    } else {
      NeutralLast(a[m..]);
    }
  }

  /** The token before the closing bracket tells whether the last entry has its comma. */
  lemma CommaShows(ls: seq<Lexeme>, at: nat, v: ArrayView)
    requires ValidArray(v) && v.parts != [] && at + |Unparse(v)| <= |ls| && ls[at..at + |Unparse(v)|] == Unparse(v)
    ensures at + |Unparse(v)| >= 2
    ensures var n := |v.parts| - 1;
      var c := at + |Unparse(v)| - 1;
      && (ls[c - 1].Txt() != "," <==> NeedsComma(v))
      && (NeedsComma(v) ==> Ranges(v.parts, at + |v.head|)[n].1 == c)
  {
    hide Flat, ArgLength, ValidHead, Ranges, PartKey, DistinctKeys;
    var n, u := |v.parts| - 1, Unparse(v);
    var p := v.parts[n];
    assert ValidPart(p);
    FlatAt(v.parts, n);
    assert v.parts[n + 1..] == [];
    FlatNone();
    var f := Flat(v.parts);
    assert f == Flat(v.parts[..n]) + p.arg + p.comma;
    UnparseSlice(ls, at, v.head, f, v.close);
    var h := at + |v.head|;
    assert ls[h..h + |f|][|f| - 1] == f[|f| - 1] == ls[at + |u| - 2];
    if p.comma == [] {
      NeutralLast(p.arg);
      RangeAt(v.parts, h, n);
    }
  }

  /** The new entry, on lines of its own: the end of patchPHPArrayValue. */
  method PutEntry(src: string, close: nat, opening: nat, firstKey: Option<nat>, path: seq<string>, value: string) returns (out: string)
    requires close <= |src| && opening <= |src| && (firstKey.Some? ==> firstKey.value <= |src|) && path != []
    ensures out == InsertLine(src, close, opening, firstKey, path, value)
  {
    hide NestedText, SingleQuoted, LineStart, EOL, Indent;
    var eol := EOL(src);
    var baseIndent := Indent(src, opening);
    var indent := baseIndent + "    ";
    if firstKey.Some? {
      var candidate := Indent(src, firstKey.value);
      if |candidate| > |baseIndent| { indent := candidate; }
    }
    assert indent == EntryIndent(src, opening, firstKey);
    var assignment := indent + SingleQuoted(path[0]) + " => " + NestedText(path[1..], value, indent, eol) + "," + eol;
    var lineStart := LineStart(src[..close]);
    if AllSpace(src[lineStart..close]) {
      out := src[..lineStart] + assignment + src[lineStart..];
    } else {
      out := src[..close] + eol + assignment + baseIndent + src[close..];
    }
  }

  /** The last part of patchPHPArrayValue: a new entry in the array at the node. */
  method AddEntry(src: string, tokens: seq<Token>, node: ArrayNode, path: seq<string>, value: string, ghost d: Doc, ghost at: nat, ghost v: ArrayView) returns (out: string)
    requires Parse(src) == Ok(d) && Located(tokens, d.lexemes) && Stands(d, at, v) && node == NodeOf(v, at) && path != []
    ensures out == InsertEntry(src, d, at, v, path, value)
  {
    hide Parse, Start, End, Unparse, Flat, Ranges, NestedText, SingleQuoted, PartKey, LineStart, EOL, Indent, ValidParts, DistinctKeys, ValidHead, Pieces, Flatten, InsertLine;
    ghost var ls, c, first := d.lexemes, at + |Unparse(v)| - 1, at + |v.head|;
    StandsBounds(src, d, at, v);
    var close := tokens[node.close].start;
    var text := src;
    if |node.entries| > 0 { CommaShows(ls, at, v); }
    if |node.entries| > 0 && tokens[node.close - 1].text != "," {
      var last := node.entries[|node.entries| - 1];
      var end := tokens[last.last - 1].end;
      text := src[..end] + "," + src[end..];
      close := close + 1;
    }
    assert text == WithComma(src, d, c, NeedsComma(v));
    var firstKey: Option<nat> := None;
    if |node.entries| > 0 {
      FirstRange(ls, at, v);
      firstKey := Some(tokens[node.entries[0].first - 2].start);
    }
    out := PutEntry(text, close, tokens[node.open].start, firstKey, path, value);
  }

  lemma FirstRange(ls: seq<Lexeme>, at: nat, v: ArrayView)
    requires ValidArray(v) && v.parts != [] && at + |Unparse(v)| <= |ls| && ls[at..at + |Unparse(v)|] == Unparse(v)
    ensures Ranges(v.parts, at + |v.head|)[0].0 == at + |v.head|
  {
  }

  // ----- the loop -----

  lemma QuotesHold(src: string, d: Doc, tokens: seq<Token>)
    requires Parse(src) == Ok(d) && Located(tokens, d.lexemes)
    ensures Quotes(tokens) && Same(tokens, d.lexemes)
  {
    hide Parse, Start, End;
    forall i | 0 <= i < |tokens| && tokens[i].kind == Quoted
      ensures |tokens[i].text| >= 2
    {
      QuotedAt(src, d, i);
    }
  }

  lemma QuotedAt(src: string, d: Doc, i: nat)
    requires Parse(src) == Ok(d) && i < |d.lexemes| && d.lexemes[i].token.kind == Quoted
    ensures |d.lexemes[i].Txt()| >= 2
  {
    hide Parse, Scan, Pieces, Flatten, ModeAfter, Lex;
    ParseScan(src);
    CutAt(d, i);
    var ps, k := AllPieces(d), |Pieces(d.lexemes[..i]) + d.lexemes[i].gap|;
    assert ps[k] == d.lexemes[i].token;
    LexedAt(src, ps, k);
    QuotedIsLong(Flatten(ps[k..]), ModeAfter(ps[..k], false));
  }

  lemma QuotedIsLong(s: string, php: bool)
    requires s != "" && Lex(s, php).Ok? && Lex(s, php).value.kind == Quoted
    ensures |Lex(s, php).value.text| >= 2
  {
  }

  /** patchPHPArrayValue */
  method PatchArrayValue(src: string, path: seq<string>, value: string) returns (r: Result<string, PhpError>)
    ensures r.Ok? <==> PatchArray(src, path, value).Ok?
    ensures r.Ok? ==> r == PatchArray(src, path, value)
    ensures r.Err? ==> Refusal(src, path) == Some(r.error)
  {
    hide Refusal, RangeError, PathError, Parse, Returned, ParseArray, Lookup, Focus, Read, Start, End, ValidArray, NodeOf, Located, Quotes, Same, FindKey, InsertEntry, InsertText, ReplaceText;
    if |path| == 0 {
      NoPath(src);
      return Err(EmptyPath);
    }
    var doc := ScanPHP(src);
    if Parse(src).Err? || Returned(Parse(src).value.lexemes).Err? { RefusedEarly(src, path); }
    if doc.Err? { return Err(doc.error); }
    var tokens := doc.value.tokens;
    ghost var d := Parse(src).value;
    ghost var ls := d.lexemes;
    QuotesHold(src, d, tokens);
    LocatedSame(tokens, ls);
    var found := ReturnedArray(tokens, ls);
    if found.Err? { return Err(found.error); }
    var node := found.value;
    ghost var (s, e) := Returned(ls).value;
    ReadIs(src, d, s, e, path);
    RefusalIs(src, d, s, e, path);
    AtRoot(ls, s, e, node);
    var depth := 0;
    assert path[..0] == [];
    while depth < |path|
      invariant depth <= |path| && AtNode(ls, s, e, path[..depth], node)
      invariant depth < |path|
    {
      var key := path[depth];
      ghost var p := path[..depth];
      assert path[..depth + 1] == p + [key];
      ghost var v := ViewAt(ls, s, e, p);
      var k := FindHere(ls, s, e, p, node, key);
      if k < 0 {
        r := AddHere(src, tokens, node, path, depth, value, d, s, e);
        return;
      }
      Descend(ls, s, e, p, node, key);
      var entry := node.entries[k];
      if depth == |path| - 1 {
        assert path[..depth + 1] == path;
        r := ReplaceHere(src, tokens, entry, path, value, d, s, e);
        return;
      }
      ValueError(ls, s, e, p, node, key);
      var next := ParseTokens(tokens, entry.first, entry.last, ls);
      if next.Err? {
        Blocked(ls[s..e], p + [key], path);
        return Err(next.error);
      }
      node := next.value;
      AtNext(ls, s, e, p + [key], node, entry);
      depth := depth + 1;
    }
  }

  lemma NoPath(src: string)
    ensures Refusal(src, []) == Some(EmptyPath)
  {
  }

  method FindHere(ghost ls: seq<Lexeme>, ghost s: nat, ghost e: nat, ghost p: seq<string>, node: ArrayNode, key: string) returns (k: int)
    requires AtNode(ls, s, e, p, node)
    ensures k == FindKey(ViewAt(ls, s, e, p).parts, key) && k < |node.entries|
  {
    hide ParseArray, Lookup, Focus, FindKey;
    ghost var v := ViewAt(ls, s, e, p);
    k := FindEntry(node.entries, key, v.parts, s + Focus(ls[s..e], p) + |v.head|);
  }

  lemma AtNext(ls: seq<Lexeme>, s: nat, e: nat, p: seq<string>, node: ArrayNode, entry: ArrayEntry)
    requires s <= e <= |ls| && entry.first <= entry.last <= |ls|
    requires Lookup(ls[s..e], p) == Value(ls[entry.first..entry.last]) && s + Focus(ls[s..e], p) == entry.first
    requires ParseArray(ls[entry.first..entry.last]).Ok? && ValidArray(ParseArray(ls[entry.first..entry.last]).value)
    requires node == NodeOf(ParseArray(ls[entry.first..entry.last]).value, entry.first)
    ensures AtNode(ls, s, e, p, node)
  {
    hide ParseArray, Lookup, Focus, ValidArray, NodeOf;
  }

  /** A value that is no literal array ends every longer path. */
  lemma Blocked(arr: seq<Lexeme>, p: seq<string>, path: seq<string>)
    requires Lookup(arr, p).Value? && ParseArray(Lookup(arr, p).tokens).Err? && p < path
    ensures Lookup(arr, path) == NotArray && PathError(arr, path) == Some(ParseArray(Lookup(arr, p).tokens).error)
  {
    hide ParseArray;
    var q := path[|p|..];
    assert path == p + q;
    LookupConcat(arr, p, q);
    PathErrorConcat(arr, p, q);
  }

  /** Why the path ends early: the error of the first value on it that is no literal
      array. */
  function PathError(ls: seq<Lexeme>, path: seq<string>): Option<PhpError>
    decreases |path|
  {
    if path == [] then None
    else
      match ParseArray(ls)
      case Err(e) => Some(e)
      case Ok(v) =>
        (assert ValidArray(v) by { ParseUnparse(ls); }
        var k := FindKey(v.parts, path[0]);
        if k < 0 then None else PathError(v.parts[k].arg[2..], path[1..]))
  }

  lemma {:induction false} PathErrorConcat(ls: seq<Lexeme>, p: seq<string>, q: seq<string>)
    requires Lookup(ls, p).Value?
    ensures PathError(ls, p + q) == PathError(Lookup(ls, p).tokens, q)
    decreases |p|
  {
    hide ParseArray, FindKey;
    if p == [] {
      assert p + q == q;
    } else {
      ParseUnparse(ls);
      var v := ParseArray(ls).value;
      var k := FindKey(v.parts, p[0]);
      assert (p + q)[0] == p[0] && (p + q)[1..] == p[1..] + q;
      PathErrorConcat(v.parts[k].arg[2..], p[1..], q);
    }
  }

  /** Why the source is refused: the empty path, the scan, the returned array, or a
      value on the path. */
  function Refusal(src: string, path: seq<string>): Option<PhpError> {
    if path == [] then Some(EmptyPath)
    else
      match Parse(src)
      case Err(e) => Some(e)
      case Ok(d) =>
        match Returned(d.lexemes)
        case Err(e) => Some(e)
        case Ok((s, e)) => ReturnedBounds(d.lexemes); PathError(d.lexemes[s..e], path)
  }

  lemma RefusalIs(src: string, d: Doc, s: nat, e: nat, path: seq<string>)
    requires path != [] && Parse(src) == Ok(d) && Returned(d.lexemes) == Ok((s, e))
    ensures s <= e <= |d.lexemes| && Refusal(src, path) == PathError(d.lexemes[s..e], path)
  {
    hide Parse, Returned, PathError;
    ReturnedBounds(d.lexemes);
  }

  lemma RefusedEarly(src: string, path: seq<string>)
    requires path != [] && (Parse(src).Err? || Returned(Parse(src).value.lexemes).Err?)
    ensures Refusal(src, path) == Some(if Parse(src).Err? then Parse(src).error else Returned(Parse(src).value.lexemes).error)
  {
  }

  /** A value on the path whose tokens are neutral is refused for what parsing it says. */
  lemma ValueError(ls: seq<Lexeme>, s: nat, e: nat, p: seq<string>, node: ArrayNode, key: string)
    requires AtNode(ls, s, e, p, node) && FindKey(ViewAt(ls, s, e, p).parts, key) >= 0
    ensures var entry := node.entries[FindKey(ViewAt(ls, s, e, p).parts, key)];
      && FindKey(ViewAt(ls, s, e, p).parts, key) < |node.entries| && entry.first <= entry.last <= |ls|
      && (ParseArray(ls[entry.first..entry.last]).Err? ==> RangeError(ls, entry.first, entry.last) == Some(ParseArray(ls[entry.first..entry.last]).error))
  {
    hide ParseArray, Lookup, Focus, FindKey, NodeOf, RangeError, MatchLength, HeadLength, Neutral, ValidParts, Unparse, Flat;
    Descend(ls, s, e, p, node, key);
    ValueNeutral(ls[s..e], p, key);
    var entry := node.entries[FindKey(ViewAt(ls, s, e, p).parts, key)];
    NeutralCloses(ls[entry.first..entry.last]);
    RangeParse(ls, entry.first, entry.last);
  }

  /** What a key leads to is neutral. */
  lemma ValueNeutral(arr: seq<Lexeme>, p: seq<string>, key: string)
    requires Lookup(arr, p).Value? && ParseArray(Lookup(arr, p).tokens).Ok? && ValidArray(ParseArray(Lookup(arr, p).tokens).value)
    requires FindKey(ParseArray(Lookup(arr, p).tokens).value.parts, key) >= 0
    ensures Lookup(arr, p + [key]).Value? && Neutral(Lookup(arr, p + [key]).tokens)
  {
    hide ParseArray, FindKey, Neutral, ValidParts, Unparse, Flat;
    var val := Lookup(arr, p).tokens;
    LookupConcat(arr, p, [key]);
    PartNeutral(ParseArray(val).value, FindKey(ParseArray(val).value.parts, key));
    assert [key][1..] == [];
  }

  lemma PartNeutral(v: ArrayView, k: nat)
    requires ValidArray(v) && k < |v.parts|
    ensures |v.parts[k].arg| >= 2 && Neutral(v.parts[k].arg[2..])
  {
    hide Neutral, LiteralKey;
    assert PartKey(v.parts[k]).Ok? && ValidPart(v.parts[k]);
    EntryHead(v.parts[k].arg);
  }

  /** The bracket at the head of neutral tokens closes among them. */
  lemma NeutralCloses(xs: seq<Lexeme>)
    requires Neutral(xs)
    ensures HeadLength(xs).Ok? ==> MatchLength(xs[HeadLength(xs).value - 1..], []).Ok?
  {
    hide MatchLength, FoldsTo;
    if HeadLength(xs).Ok? {
      if HeadLength(xs).value == 1 {
        assert xs[0..] == xs;
      } else {
        ArrayWord(xs[0].Txt());
        assert AtomLength(xs) == Ok(1);
        assert ArgLength(xs[1..]).Ok?;
      }
    }
  }

  lemma ArrayWord(s: string)
    requires FoldsTo(s, "array")
    ensures !IsOpen(s) && !IsClose(s) && s != ","
  {
  }

  /** The array reached so far does not have the key. */
  ghost predicate Misses(d: Doc, s: nat, e: nat, p: seq<string>, node: ArrayNode, key: string) {
    AtNode(d.lexemes, s, e, p, node) && FindKey(ViewAt(d.lexemes, s, e, p).parts, key) < 0
  }

  /** What patching then amounts to. */
  lemma AddSpec(src: string, d: Doc, s: nat, e: nat, path: seq<string>, depth: nat, node: ArrayNode, value: string) returns (at: nat, v: ArrayView)
    requires Parse(src) == Ok(d) && Returned(d.lexemes) == Ok((s, e)) && depth < |path| && Misses(d, s, e, path[..depth], node, path[depth])
    ensures Stands(d, at, v) && ValidArray(v) && node == NodeOf(v, at)
    ensures PatchArray(src, path, value) == Ok(InsertEntry(src, d, at, v, path[depth..], value))
  {
    hide *;
    MissesRead(src, d, s, e, path, depth, node);
    MissingPatched(src, d, s, e, path, value);
    at, v := MissingText(src, d, s, e, path, depth, node, value);
  }

  lemma MissesRead(src: string, d: Doc, s: nat, e: nat, path: seq<string>, depth: nat, node: ArrayNode)
    requires Parse(src) == Ok(d) && Returned(d.lexemes) == Ok((s, e)) && depth < |path| && Misses(d, s, e, path[..depth], node, path[depth])
    ensures s <= e <= |d.lexemes| && Read(src, path) == Missing && Depth(d.lexemes[s..e], path) == depth
  {
    hide Parse, Returned, ParseArray, Lookup, Focus, NodeOf, FindKey, Depth, Read, ValidArray;
    MissingAt(d.lexemes[s..e], path, depth);
    ReadIs(src, d, s, e, path);
  }

  lemma MissingText(src: string, d: Doc, s: nat, e: nat, path: seq<string>, depth: nat, node: ArrayNode, value: string) returns (at: nat, v: ArrayView)
    requires Parse(src) == Ok(d) && Returned(d.lexemes) == Ok((s, e)) && depth < |path| && Misses(d, s, e, path[..depth], node, path[depth])
    requires s <= e <= |d.lexemes| && Read(src, path) == Missing && Depth(d.lexemes[s..e], path) == depth
    ensures Stands(d, at, v) && ValidArray(v) && node == NodeOf(v, at)
    ensures InsertText(src, d, s, e, path, value) == InsertEntry(src, d, at, v, path[depth..], value)
  {
    hide Parse, Returned, ParseArray, Lookup, Focus, NodeOf, FindKey, Depth, Read, Stands, InsertEntry, ValidArray;
    var p := path[..depth];
    var val := Lookup(d.lexemes[s..e], p).tokens;
    at := s + Focus(d.lexemes[s..e], p);
    v := ParseArray(val).value;
    ParseUnparse(val);
    StandsIs(d, at, v, val);
  }

  lemma MissingPatched(src: string, d: Doc, s: nat, e: nat, path: seq<string>, value: string)
    requires Parse(src) == Ok(d) && Returned(d.lexemes) == Ok((s, e)) && path != [] && Read(src, path) == Missing
    ensures PatchArray(src, path, value) == Ok(InsertText(src, d, s, e, path, value))
  {
    hide Parse, Returned, Read, InsertText;
  }

  /** What patching amounts to when the path leads to these tokens. */
  lemma ReplaceSpec(src: string, d: Doc, s: nat, e: nat, path: seq<string>, first: nat, last: nat, value: string)
    requires Parse(src) == Ok(d) && Returned(d.lexemes) == Ok((s, e)) && path != []
    requires s <= e <= |d.lexemes| && first <= last <= |d.lexemes|
    requires Lookup(d.lexemes[s..e], path) == Value(d.lexemes[first..last]) && s + Focus(d.lexemes[s..e], path) == first
    ensures first < last && Start(d.lexemes, first) <= End(d.lexemes, last - 1) <= |src|
    ensures PatchArray(src, path, value) == Ok(src[..Start(d.lexemes, first)] + value + src[End(d.lexemes, last - 1)..])
  {
    hide Parse, Returned, Lookup, Focus, Start, End, Read, ValueText;
    ReadIs(src, d, s, e, path);
    ValueInDoc(src, d, s, e, path);
    ValueNonempty(d.lexemes, first, Read(src, path).tokens);
    ValueOffsets(src, d, first, last - first);
  }

  /** The missing key: the entry goes into the array reached so far. */
  method AddHere(src: string, tokens: seq<Token>, node: ArrayNode, path: seq<string>, depth: nat, value: string, ghost d: Doc, ghost s: nat, ghost e: nat) returns (r: Result<string, PhpError>)
    requires Parse(src) == Ok(d) && Located(tokens, d.lexemes) && Returned(d.lexemes) == Ok((s, e)) && depth < |path|
    requires Misses(d, s, e, path[..depth], node, path[depth])
    ensures r.Ok? && r == PatchArray(src, path, value)
  {
    hide *;
    ghost var at, v := AddSpec(src, d, s, e, path, depth, node, value);
    var out := AddEntry(src, tokens, node, path[depth..], value, d, at, v);
    r := Ok(out);
  }

  /** The key is missing, so the path leads nowhere, and this deep. */
  lemma {:induction false} MissingAt(arr: seq<Lexeme>, path: seq<string>, depth: nat)
    requires depth < |path| && Lookup(arr, path[..depth]).Value?
    requires var r := ParseArray(Lookup(arr, path[..depth]).tokens);
      r.Ok? && ValidArray(r.value) && FindKey(r.value.parts, path[depth]) < 0
    ensures Lookup(arr, path) == Missing && Depth(arr, path) == depth
    decreases depth
  {
    hide ParseArray, FindKey;
    if depth == 0 {
      assert path[..0] == [];
    } else {
      ParseUnparse(arr);
      assert path[..depth][0] == path[0] && path[..depth][1..] == path[1..][..depth - 1];
      var v := ParseArray(arr).value;
      var k := FindKey(v.parts, path[0]);
      MissingAt(v.parts[k].arg[2..], path[1..], depth - 1);
    }
  }

  /** The last key: the value found gives way. */
  method ReplaceHere(src: string, tokens: seq<Token>, entry: ArrayEntry, path: seq<string>, value: string, ghost d: Doc, ghost s: nat, ghost e: nat) returns (r: Result<string, PhpError>)
    requires Parse(src) == Ok(d) && Located(tokens, d.lexemes) && Returned(d.lexemes) == Ok((s, e)) && path != []
    requires s <= e <= |d.lexemes| && entry.first <= entry.last <= |d.lexemes|
    requires Lookup(d.lexemes[s..e], path) == Value(d.lexemes[entry.first..entry.last]) && s + Focus(d.lexemes[s..e], path) == entry.first
    ensures r.Ok? && r == PatchArray(src, path, value)
  {
    hide Parse, Returned, Lookup, Focus, Start, End, PatchArray;
    ReplaceSpec(src, d, s, e, path, entry.first, entry.last, value);
    r := Ok(src[..tokens[entry.first].start] + value + src[tokens[entry.last - 1].end..]);
  }

  lemma ValueNonempty(ls: seq<Lexeme>, i: nat, val: seq<Lexeme>)
    requires PhpArrayLens.Placed(ls, i, val)
    ensures val != []
  {
  }
}
