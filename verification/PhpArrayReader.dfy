/** phpLiteralKey, phpSegments, parsePHPArray and phpReturnedArray as loops over
    the scanned tokens. */
module PhpArrayReader {
  import opened Text
  import opened PhpLexer
  import S = Sequences
  import opened PhpTokens
  import opened PhpLiterals
  import opened PhpArray
  import opened PhpScanner
  import RT = PhpReturned

  // ----- keys -----

  function Prefixed(out: string, r: Result<string, PhpError>): Result<string, PhpError> {
    match r case Err(e) => Err(e) case Ok(s) => Ok(out + s)
  }

  /** The character that the head of s stands for, and how many it takes up. */
  function KeyChar(s: string, quote: char): (r: Result<(char, nat), PhpError>)
    requires s != ""
    ensures r.Ok? ==> 0 < r.value.1 <= |s|
  {
    if quote == '"' && s[0] == '$' then Err(InterpolatedKey)
    else if s[0] == '\\' && |s| > 1 && (s[1] == quote || s[1] == '\\' || (quote == '"' && s[1] == '$')) then Ok((s[1], 2))
    else if s[0] == '\\' && |s| > 1 && quote == '"' then
      if s[1] == 'n' then Ok(('\n', 2)) else if s[1] == 'r' then Ok(('\r', 2)) else if s[1] == 't' then Ok(('\t', 2)) else Err(KeyEscape)
    else Ok((s[0], 1))
  }

  lemma DecodeStep(s: string, quote: char, out: string)
    requires s != ""
    ensures var k := KeyChar(s, quote);
      Prefixed(out, DecodeKey(s, quote)) == if k.Err? then Err(k.error) else Prefixed(out + [k.value.0], DecodeKey(s[k.value.1..], quote))
  {
    if KeyChar(s, quote).Ok? { PrefixedStep(out, KeyChar(s, quote).value.0, DecodeKey(s[KeyChar(s, quote).value.1..], quote)); }
  }

  /** phpLiteralKey */
  method ReadKey(t: Token) returns (r: Result<string, PhpError>)
    requires t.kind == Quoted ==> |t.text| >= 2
    ensures r == LiteralKey(Piece(t.kind, t.text))
  {
    hide DecodeKey, Prefixed;
    if t.kind != Quoted { return Err(KeyNotString); }
    var quote := t.text[0];
    var out := "";
    var i := 1;
    ghost var body := t.text[1..|t.text| - 1];
    assert body[0..] == body;
    KeyStart(DecodeKey(body, quote));
    while i < |t.text| - 1
      invariant 1 <= i <= |t.text| - 1
      invariant DecodeKey(body, quote) == Prefixed(out, DecodeKey(body[i - 1..], quote))
    {
      var c := t.text[i];
      ghost var s := body[i - 1..];
      assert s[0] == c && |s| == |t.text| - 1 - i;
      DecodeStep(s, quote, out);
      if quote == '"' && c == '$' { return Err(InterpolatedKey); }
      if c == '\\' && i + 1 < |t.text| - 1 {
        var next := t.text[i + 1];
        assert s[1] == next && s[2..] == body[i + 1..];
        if next == quote || next == '\\' || (quote == '"' && next == '$') {
          out := out + [next];
          i := i + 2;
          continue;
        }
        if quote == '"' {
          if next == 'n' || next == 'r' || next == 't' {
            out := out + [if next == 'n' then '\n' else if next == 'r' then '\r' else '\t'];
            i := i + 2;
            continue;
          }
          return Err(KeyEscape);
        }
      }
      assert s[1..] == body[i..];
      out := out + [c];
      i := i + 1;
    }
    assert body[i - 1..] == "";
    PrefixedEnd(out, quote);
    return Ok(out);
  }

  lemma KeyStart(r: Result<string, PhpError>)
    ensures r == Prefixed("", r)
  {
    if r.Ok? { assert "" + r.value == r.value; }
  }

  lemma PrefixedStep(out: string, c: char, r: Result<string, PhpError>)
    ensures Prefixed(out, Prepend(c, r)) == Prefixed(out + [c], r)
  {
    if r.Ok? { assert out + ([c] + r.value) == out + [c] + r.value; }
  }

  lemma PrefixedEnd(out: string, quote: char)
    ensures Prefixed(out, DecodeKey("", quote)) == Ok(out)
  {
    assert out + "" == out;
  }

  // ----- segments -----

  /** A bracket that closes within a prefix closes in the whole list, and back. */
  lemma {:induction false} MatchWithin(a: seq<Lexeme>, b: seq<Lexeme>, stack: seq<string>)
    ensures MatchLength(a, stack).Ok? ==> MatchLength(a + b, stack) == MatchLength(a, stack)
    ensures MatchLength(a + b, stack).Ok? && MatchLength(a + b, stack).value <= |a| ==> MatchLength(a, stack) == MatchLength(a + b, stack)
    decreases |a|
  {
    if a == [] {
      assert a + b == b;
    } else {
      assert (a + b)[1..] == a[1..] + b;
      match Feed(stack, a[0].Txt())
      case None =>
      case Some(s) => MatchWithin(a[1..], b, s);
    }
  }

  function Range(first: nat, last: nat): (nat, nat) { (first, last) }

  /** The token ranges of the expressions. */
  function Ranges(parts: seq<Part>, at: nat): (r: seq<(nat, nat)>)
    ensures |r| == |parts|
    decreases |parts|
  {
    if parts == [] then []
    else [(at, at + |parts[0].arg|)] + Ranges(parts[1..], at + |parts[0].arg| + |parts[0].comma|)
  }

  /** The ranges found, ahead of those of the rest. */
  function Segmented(segments: seq<(nat, nat)>, r: Result<seq<Part>, PhpError>, at: nat): Result<seq<(nat, nat)>, PhpError> {
    match r case Err(e) => Err(e) case Ok(parts) => Ok(segments + Ranges(parts, at))
  }

  /** The rest of the expression that begins at begin, from i on. */
  function Pending(ls: seq<Lexeme>, begin: nat, i: nat): Result<nat, PhpError>
    requires begin <= i <= |ls|
  {
    match ArgLength(ls[i..]) case Err(e) => Err(e) case Ok(n) => Ok(i - begin + n)
  }

  lemma SliceSlices<T>(s: seq<T>, a: nat, b: nat, i: nat)
    requires a <= i < b <= |s|
    ensures s[a..b][i - a..] == s[i..b] && s[i..b][0] == s[i] && s[i..b][1..] == s[i + 1..b] && s[i..] == s[i..b] + s[b..]
  {
  }


  lemma PendingEnd(xs: seq<Lexeme>, b: nat)
    requires b <= |xs| && Pending(xs, b, |xs|) == ArgLength(xs[b..])
    ensures ArgLength(xs[b..]) == Ok(|xs| - b)
  {
  }

  lemma PendingOne(xs: seq<Lexeme>, b: nat, k: nat)
    requires b <= k < |xs| && !IsOpen(xs[k].Txt()) && !IsClose(xs[k].Txt()) && !IsComma(xs[k])
    ensures Pending(xs, b, k) == Pending(xs, b, k + 1)
  {
  }

  lemma PendingGroup(xs: seq<Lexeme>, b: nat, k: nat, n: nat)
    requires b <= k < |xs| && IsOpen(xs[k].Txt()) && MatchLength(xs[k..], []) == Ok(n) && k + n <= |xs|
    ensures Pending(xs, b, k) == Pending(xs, b, k + n)
  {
  }

  lemma PendingBad(xs: seq<Lexeme>, b: nat, k: nat)
    requires b <= k < |xs| && ((IsOpen(xs[k].Txt()) && MatchLength(xs[k..], []).Err?) || IsClose(xs[k].Txt()))
    ensures Pending(xs, b, k) == Err(UnbalancedExpression)
  {
  }

  lemma PendingComma(xs: seq<Lexeme>, b: nat, k: nat)
    requires b <= k < |xs| && IsComma(xs[k])
    ensures Pending(xs, b, k) == Ok(k - b)
  {
  }

  lemma SegmentsBad(segments: seq<(nat, nat)>, ys: seq<Lexeme>, at: nat)
    requires ys != [] && ArgLength(ys) == Err(UnbalancedExpression)
    ensures Segmented(segments, Split(ys), at) == Err(UnbalancedExpression)
  {
  }

  lemma SegmentsEmpty(segments: seq<(nat, nat)>, ys: seq<Lexeme>, at: nat)
    requires ys != [] && ArgLength(ys) == Ok(0)
    ensures Segmented(segments, Split(ys), at) == Err(EmptyExpression)
  {
  }

  lemma SegmentsNext(segments: seq<(nat, nat)>, xs: seq<Lexeme>, b: nat, k: nat, start: nat)
    requires b < k < |xs| && ArgLength(xs[b..]) == Ok(k - b)
    ensures Segmented(segments, Split(xs[b..]), start + b) == Segmented(segments + [Range(start + b, start + k)], Split(xs[k + 1..]), start + (k + 1))
  {
    hide ArgLength, Ranges;
    var ys, n := xs[b..], k - b;
    assert ys[n + 1..] == xs[k + 1..];
    var r := Split(xs[k + 1..]);
    if r.Ok? {
      RangesCons(Part(ys[..n], [ys[n]]), r.value, start + b);
      S.Assoc(segments, [Range(start + b, start + k)], Ranges(r.value, start + (k + 1)));
    }
  }

  lemma RangesCons(p: Part, rest: seq<Part>, at: nat)
    ensures Ranges([p] + rest, at) == [(at, at + |p.arg|)] + Ranges(rest, at + |p.arg| + |p.comma|)
  {
  }

  lemma RangesWhole(ys: seq<Lexeme>, at: nat)
    ensures Ranges([], at) == [] && Ranges([Part(ys, [])], at) == [(at, at + |ys|)]
  {
    var p := Part(ys, []);
    assert [p][1..] == [];
    assert Ranges([p], at) == [(at, at + |ys|)] + Ranges([], at + |ys|);
  }

  lemma SegmentsEnd(segments: seq<(nat, nat)>, ys: seq<Lexeme>, at: nat)
    requires ArgLength(ys) == Ok(|ys|)
    ensures Segmented(segments, Split(ys), at) == Ok(if ys == [] then segments else segments + [(at, at + |ys|)])
  {
    hide ArgLength, Split, Ranges;
    SplitWhole(ys);
    RangesWhole(ys, at);
    assert segments + [] == segments;
  }

  lemma SplitWhole(ys: seq<Lexeme>)
    requires ArgLength(ys) == Ok(|ys|)
    ensures Split(ys) == Ok(if ys == [] then [] else [Part(ys, [])])
  {
  }

  // ----- arrays -----

  /** phpArrayEntry and phpArray */
  datatype ArrayEntry = ArrayEntry(key: string, first: nat, last: nat)

  datatype ArrayNode = ArrayNode(open: nat, close: nat, entries: seq<ArrayEntry>)

  function EntriesOf(parts: seq<Part>, at: nat): (r: seq<ArrayEntry>)
    requires forall i :: 0 <= i < |parts| ==> PartKey(parts[i]).Ok?
    ensures |r| == |parts|
    ensures forall i :: 0 <= i < |parts| ==> r[i] == ArrayEntry(PartKey(parts[i]).value, Ranges(parts, at)[i].0 + 2, Ranges(parts, at)[i].1)
  {
    seq(|parts|, i requires 0 <= i < |parts| => ArrayEntry(PartKey(parts[i]).value, Ranges(parts, at)[i].0 + 2, Ranges(parts, at)[i].1))
  }

  /** The loop has cut off these segments, and come from token b to token k. */
  ghost predicate Segmenting(xs: seq<Lexeme>, segments: seq<(nat, nat)>, b: nat, k: nat, start: nat)
    requires b <= k <= |xs|
  {
    Segmented([], Split(xs), start) == Segmented(segments, Split(xs[b..]), start + b) && Pending(xs, b, k) == ArgLength(xs[b..])
  }

  lemma SegmentBegins(xs: seq<Lexeme>, start: nat)
    ensures Segmenting(xs, [], 0, 0, start)
  {
  }

  lemma SegmentBad(xs: seq<Lexeme>, segments: seq<(nat, nat)>, b: nat, k: nat, start: nat)
    requires b <= k < |xs| && Segmenting(xs, segments, b, k, start)
    requires IsClose(xs[k].Txt()) || (IsOpen(xs[k].Txt()) && MatchLength(xs[k..], []).Err?)
    ensures Segmented([], Split(xs), start) == Err(UnbalancedExpression)
  {
    hide Split, ArgLength, Segmented, Pending, MatchLength;
    PendingBad(xs, b, k);
    SegmentsBad(segments, xs[b..], start + b);
  }

  lemma SegmentGoesOn(xs: seq<Lexeme>, segments: seq<(nat, nat)>, b: nat, k: nat, n: nat, start: nat)
    requires b <= k < |xs| && k + n <= |xs| && Segmenting(xs, segments, b, k, start)
    requires if IsOpen(xs[k].Txt()) then MatchLength(xs[k..], []) == Ok(n) else n == 1 && !IsClose(xs[k].Txt()) && !IsComma(xs[k])
    ensures Segmenting(xs, segments, b, k + n, start)
  {
    hide Split, ArgLength, Segmented, Pending, MatchLength;
    if IsOpen(xs[k].Txt()) { PendingGroup(xs, b, k, n); } else { PendingOne(xs, b, k); }
  }

  lemma SegmentComma(xs: seq<Lexeme>, segments: seq<(nat, nat)>, b: nat, k: nat, start: nat)
    requires b <= k < |xs| && Segmenting(xs, segments, b, k, start) && IsComma(xs[k])
    ensures if b == k then Segmented([], Split(xs), start) == Err(EmptyExpression) else Segmenting(xs, segments + [Range(start + b, start + k)], k + 1, k + 1, start)
  {
    hide Split, ArgLength, Segmented, Pending, MatchLength, Segmenting;
    SegmentingIs(xs, segments, b, k, start);
    PendingComma(xs, b, k);
    if b == k {
      SegmentsEmpty(segments, xs[b..], start + b);
    } else {
      SegmentsNext(segments, xs, b, k, start);
      SegmentingAt(xs, segments + [Range(start + b, start + k)], k + 1, start);
    }
  }

  lemma SegmentingIs(xs: seq<Lexeme>, segments: seq<(nat, nat)>, b: nat, k: nat, start: nat)
    requires b <= k <= |xs| && Segmenting(xs, segments, b, k, start)
    ensures Segmented([], Split(xs), start) == Segmented(segments, Split(xs[b..]), start + b) && Pending(xs, b, k) == ArgLength(xs[b..])
  {
  }

  lemma SegmentingAt(xs: seq<Lexeme>, segments: seq<(nat, nat)>, k: nat, start: nat)
    requires k <= |xs| && Segmented([], Split(xs), start) == Segmented(segments, Split(xs[k..]), start + k)
    ensures Segmenting(xs, segments, k, k, start)
  {
  }

  lemma SegmentEnds(xs: seq<Lexeme>, segments: seq<(nat, nat)>, b: nat, start: nat)
    requires b <= |xs| && Segmenting(xs, segments, b, |xs|, start)
    ensures Segmented([], Split(xs), start) == Ok(if b < |xs| then segments + [Range(start + b, start + |xs|)] else segments)
  {
    hide Split, ArgLength, Segmented, Pending, MatchLength;
    PendingEnd(xs, b);
    SegmentsEnd(segments, xs[b..], start + b);
  }

  /** A bracket is closed before the end, or not at all. */
  lemma SegmentMatch(ls: seq<Lexeme>, start: nat, end: nat, i: nat)
    requires start <= i < end <= |ls|
    ensures var m, n := MatchLength(ls[i..], []), MatchLength(ls[start..end][i - start..], []);
      if m.Ok? && i + m.value <= end then n == m else n.Err?
    ensures ls[start..end][i - start] == ls[i]
  {
    hide MatchLength;
    SliceSlices(ls, start, end, i);
    MatchWithin(ls[start..end][i - start..], ls[end..], []);
  }

  /** phpSegments */
  method Segments(tokens: seq<Token>, start: nat, end: nat, ghost ls: seq<Lexeme>) returns (r: Result<seq<(nat, nat)>, PhpError>)
    requires Same(tokens, ls) && start <= end <= |tokens|
    ensures r == Segmented([], Split(ls[start..end]), start)
  {
    hide MatchLength, Split, ArgLength, Segmented, Pending, Segmenting;
    var segments: seq<(nat, nat)> := [];
    var begin, i := start, start;
    ghost var xs := ls[start..end];
    SegmentBegins(xs, start);
    while i < end
      invariant start <= begin <= i <= end && Segmenting(xs, segments, begin - start, i - start, start)
    {
      var t := tokens[i].text;
      ghost var b, k := begin - start, i - start;
      SegmentMatch(ls, start, end, i);
      if t == "[" || t == "(" || t == "{" {
        var close := Matching(tokens, i, ls);
        if close.Err? || close.value >= end {
          SegmentBad(xs, segments, b, k, start);
          return Err(UnbalancedExpression);
        }
        SegmentGoesOn(xs, segments, b, k, close.value + 1 - i, start);
        i := close.value;
      } else if t == "]" || t == ")" || t == "}" {
        SegmentBad(xs, segments, b, k, start);
        return Err(UnbalancedExpression);
      } else if t == "," {
        SegmentComma(xs, segments, b, k, start);
        if i == begin { return Err(EmptyExpression); }
        segments := segments + [(begin, i)];
        begin := i + 1;
      } else {
        SegmentGoesOn(xs, segments, b, k, 1, start);
      }
      i := i + 1;
    }
    SegmentEnds(xs, segments, begin - start, start);
    if begin < end { segments := segments + [(begin, end)]; }
    return Ok(segments);
  }

  /** The array v, whose first token is token start. */
  function NodeOf(v: ArrayView, start: nat): ArrayNode
    requires ValidArray(v)
  {
    ArrayNode(start + |v.head| - 1, start + |Unparse(v)| - 1, EntriesOf(v.parts, start + |v.head|))
  }

  /** The ranges are where the expressions stand. */
  lemma {:induction false} RangeAt(parts: seq<Part>, at: nat, k: nat)
    requires k < |parts|
    ensures Ranges(parts, at)[k].0 == at + |Flat(parts[..k])| && Ranges(parts, at)[k].1 == at + |Flat(parts[..k])| + |parts[k].arg|
    decreases k
  {
    hide Flat;
    if k == 0 {
      FlatNone();
      assert parts[..0] == [];
    } else {
      RangeAt(parts[1..], at + |parts[0].arg| + |parts[0].comma|, k - 1);
      assert parts[..k][0] == parts[0] && parts[..k][1..] == parts[1..][..k - 1];
      FlatOne(parts[..k]);
    }
  }

  lemma RangeSlices(parts: seq<Part>, at: nat, ls: seq<Lexeme>, k: nat)
    requires at + |Flat(parts)| <= |ls| && ls[at..at + |Flat(parts)|] == Flat(parts) && k < |parts|
    ensures var r := Ranges(parts, at)[k];
      at <= r.0 <= r.1 <= at + |Flat(parts)| && ls[r.0..r.1] == parts[k].arg
  {
    hide Flat, Ranges;
    RangeAt(parts, at, k);
    FlatAt(parts, k);
    var n := |Flat(parts[..k])|;
    S.Middle(Flat(parts[..k]), parts[k].arg, parts[k].comma + Flat(parts[k + 1..]));
    S.SliceIn(ls, at, at + |Flat(parts)|, n, n + |parts[k].arg|);
  }

  lemma FlatNone()
    ensures Flat([]) == []
  {
  }

  ghost predicate Quotes(tokens: seq<Token>) {
    forall i :: 0 <= i < |tokens| && tokens[i].kind == Quoted ==> |tokens[i].text| >= 2
  }

  /** The checks on one segment. */
  method EntryKey(tokens: seq<Token>, first: nat, last: nat, ghost ls: seq<Lexeme>, ghost p: Part) returns (r: Result<string, PhpError>)
    requires Same(tokens, ls) && Quotes(tokens) && first <= last <= |ls| && ls[first..last] == p.arg
    ensures r == PartKey(p)
  {
    hide LiteralKey;
    assert forall i :: 0 <= i < last - first ==> p.arg[i] == ls[first + i];
    if last - first < 3 || tokens[first + 1].text != "=>" { return Err(LiteralKeysRequired); }
    r := ReadKey(tokens[first]);
    assert ls[first].token == Piece(tokens[first].kind, tokens[first].text);
  }

  /** The loop over the segments. */
  method Entries(tokens: seq<Token>, segments: seq<(nat, nat)>, ghost ls: seq<Lexeme>, ghost parts: seq<Part>, ghost at: nat) returns (r: Result<seq<ArrayEntry>, PhpError>)
    requires Same(tokens, ls) && Quotes(tokens) && segments == Ranges(parts, at)
    requires forall k :: 0 <= k < |parts| ==> segments[k].0 <= segments[k].1 <= |ls| && ls[segments[k].0..segments[k].1] == parts[k].arg
    ensures match CheckKeys(parts, {})
      case Some(e) => r == Err(e)
      case None => (forall i :: 0 <= i < |parts| ==> PartKey(parts[i]).Ok?) && r == Ok(EntriesOf(parts, at))
  {
    hide PartKey, Ranges;
    var entries: seq<ArrayEntry> := [];
    var seen: set<string> := {};
    var k := 0;
    assert parts[0..] == parts;
    while k < |segments|
      invariant k <= |segments| == |parts| && |entries| == k
      invariant CheckKeys(parts, {}) == CheckKeys(parts[k..], seen)
      invariant forall i :: 0 <= i < k ==> PartKey(parts[i]).Ok? && entries[i] == ArrayEntry(PartKey(parts[i]).value, segments[i].0 + 2, segments[i].1)
    {
      var first, last := segments[k].0, segments[k].1;
      assert parts[k..][0] == parts[k] && parts[k..][1..] == parts[k + 1..];
      var key := EntryKey(tokens, first, last, ls, parts[k]);
      if key.Err? { return Err(key.error); }
      if key.value in seen { return Err(DuplicateKey); }
      seen := seen + {key.value};
      entries := entries + [ArrayEntry(key.value, first + 2, last)];
      k := k + 1;
    }
    assert parts[k..] == [];
    assert entries == EntriesOf(parts, at);
    return Ok(entries);
  }

  /** The head of an array, in tokens. */
  lemma HeadTokens(tokens: seq<Token>, ls: seq<Lexeme>, start: nat, end: nat)
    requires Same(tokens, ls) && start <= end <= |tokens|
    ensures
      var k := if start < end && FoldsTo(tokens[start].text, "array") then 1 else 0;
      if start + k >= end || (tokens[start + k].text != "[" && tokens[start + k].text != "(") || (k == 0 && tokens[start + k].text != "[")
      then HeadLength(ls[start..end]).Err? && ParseArray(ls[start..end]).Err? else HeadLength(ls[start..end]) == Ok(k + 1)
  {
  }

  /** The steps of parsing an array whose bracket is its token h - 1. */
  lemma SliceSteps(xs: seq<Lexeme>, h: nat)
    requires HeadLength(xs) == Ok(h)
    ensures ParseArray(xs) ==
      match MatchLength(xs[h - 1..], [])
      case Err(e) => Err(e)
      case Ok(n) =>
        if h - 1 + n != |xs| || n == 1 then Err(ComputedArray)
        else
          match Split(xs[h..|xs| - 1])
          case Err(e) => Err(e)
          case Ok(parts) =>
            match CheckKeys(parts, {})
            case Some(e) => Err(e)
            case None => Ok(ArrayView(xs[..h], parts, xs[|xs| - 1]))
  {
  }

  /** The steps of parsing the array from start to end, whose bracket is at open. */
  lemma ParseSteps(ls: seq<Lexeme>, start: nat, end: nat, open: nat)
    requires start <= open < end <= |ls| && HeadLength(ls[start..end]) == Ok(open - start + 1)
    ensures
      var m := MatchLength(ls[open..], []);
      if m.Err? || open + m.value != end then ParseArray(ls[start..end]).Err?
      else
        && m.value >= 2
        && var inner := Split(ls[open + 1..end - 1]);
          if inner.Err? then ParseArray(ls[start..end]) == Err(inner.error)
          else if CheckKeys(inner.value, {}).Some? then ParseArray(ls[start..end]) == Err(CheckKeys(inner.value, {}).value)
          else
            && ParseArray(ls[start..end]).Ok?
            && var v := ParseArray(ls[start..end]).value;
              ValidArray(v) && |v.head| == open - start + 1 && v.parts == inner.value && |Unparse(v)| == end - start
  {
    hide MatchLength, Split, CheckKeys, HeadLength, ValidArray, Unparse, ParseArray;
    var xs, h := ls[start..end], open - start + 1;
    SliceSteps(xs, h);
    SliceSlices(ls, start, end, open);
    MatchWithin(ls[open..end], ls[end..], []);
    var m := MatchLength(ls[open..], []);
    if m.Ok? && open + m.value == end {
      HeadOpens(xs);
      MatchGroup(ls[open..end]);
      assert xs[h..|xs| - 1] == ls[open + 1..end - 1] by { S.SliceIn(ls, start, end, h, |xs| - 1); }
      if ParseArray(xs).Ok? { ParseUnparse(xs); }
    }
  }

  lemma HeadOpens(xs: seq<Lexeme>)
    requires HeadLength(xs).Ok?
    ensures IsOpen(xs[HeadLength(xs).value - 1].Txt())
  {
  }

  /** Why the tokens from start to end are refused.  The bracket is matched in all
      tokens, so that it may close behind the end. */
  function RangeError(ls: seq<Lexeme>, start: nat, end: nat): Option<PhpError>
    requires start <= end <= |ls|
  {
    match HeadLength(ls[start..end])
    case Err(e) => Some(e)
    case Ok(h) =>
      var open := start + h - 1;
      match MatchLength(ls[open..], [])
      case Err(e) => Some(e)
      case Ok(n) =>
        if open + n != end || n < 2 then Some(ComputedArray)
        else
          match Split(ls[open + 1..end - 1])
          case Err(e) => Some(e)
          case Ok(parts) => CheckKeys(parts, {})
  }

  lemma RangeSteps(ls: seq<Lexeme>, start: nat, end: nat, open: nat)
    requires start <= open < end <= |ls| && HeadLength(ls[start..end]) == Ok(open - start + 1)
    ensures RangeError(ls, start, end) ==
      match MatchLength(ls[open..], [])
      case Err(e) => Some(e)
      case Ok(n) =>
        if open + n != end || n < 2 then Some(ComputedArray)
        else
          match Split(ls[open + 1..end - 1])
          case Err(e) => Some(e)
          case Ok(parts) => CheckKeys(parts, {})
  {
  }

  lemma RangeHead(ls: seq<Lexeme>, start: nat, end: nat)
    requires start <= end <= |ls| && HeadLength(ls[start..end]).Err?
    ensures RangeError(ls, start, end) == Some(NotLiteralArray) && ParseArray(ls[start..end]) == Err(NotLiteralArray)
  {
  }

  /** Where the bracket closes within the range, that is the error of parsing it. */
  lemma RangeParse(ls: seq<Lexeme>, start: nat, end: nat)
    requires start <= end <= |ls|
    requires HeadLength(ls[start..end]).Ok? ==> MatchLength(ls[start..end][HeadLength(ls[start..end]).value - 1..], []).Ok?
    ensures ParseArray(ls[start..end]).Err? ==> RangeError(ls, start, end) == Some(ParseArray(ls[start..end]).error)
  {
    hide MatchLength, Split, CheckKeys, HeadLength, ParseArray, RangeError;
    var xs := ls[start..end];
    if HeadLength(xs).Err? {
      RangeHead(ls, start, end);
    } else {
      var h := HeadLength(xs).value;
      BracketWithin(ls, start, end, h);
      RangeClosed(ls, start, end, h, xs, MatchLength(xs[h - 1..], []).value);
    }
  }

  lemma RangeClosed(ls: seq<Lexeme>, start: nat, end: nat, h: nat, xs: seq<Lexeme>, n: nat)
    requires start <= end <= |ls| && xs == ls[start..end] && HeadLength(xs) == Ok(h)
    requires MatchLength(xs[h - 1..], []) == Ok(n) == MatchLength(ls[start + h - 1..], []) && n >= 2
    ensures ParseArray(xs).Err? ==> RangeError(ls, start, end) == Some(ParseArray(xs).error)
  {
    hide MatchLength, Split, CheckKeys, HeadLength, ParseArray, RangeError;
    var open := start + h - 1;
    SliceSteps(xs, h);
    RangeSteps(ls, start, end, open);
    if h - 1 + n == |xs| {
      assert ls[open + 1..end - 1] == xs[h..|xs| - 1] by { S.SliceIn(ls, start, end, h, |xs| - 1); }
      SameError(Split(xs[h..|xs| - 1]), ParseArray(xs), RangeError(ls, start, end), xs[..h], xs[|xs| - 1]);
    }
  }

  lemma SameError(inner: Result<seq<Part>, PhpError>, r: Result<ArrayView, PhpError>, e: Option<PhpError>, head: seq<Lexeme>, close: Lexeme)
    requires r ==
      match inner
      case Err(e) => Err(e)
      case Ok(parts) =>
        match CheckKeys(parts, {})
        case Some(e) => Err(e)
        case None => Ok(ArrayView(head, parts, close))
    requires e == match inner case Err(e) => Some(e) case Ok(parts) => CheckKeys(parts, {})
    ensures r.Err? ==> e == Some(r.error)
  {
  }

  lemma BracketWithin(ls: seq<Lexeme>, start: nat, end: nat, h: nat)
    requires start <= end <= |ls| && HeadLength(ls[start..end]) == Ok(h) && MatchLength(ls[start..end][h - 1..], []).Ok?
    ensures MatchLength(ls[start + h - 1..], []) == MatchLength(ls[start..end][h - 1..], [])
    ensures MatchLength(ls[start + h - 1..], []).value >= 2
  {
    hide MatchLength, HeadLength;
    var xs, open := ls[start..end], start + h - 1;
    SliceSlices(ls, start, end, open);
    MatchWithin(ls[open..end], ls[end..], []);
    HeadOpens(xs);
    MatchGroup(ls[open..end]);
  }

  /** parsePHPArray */
  method ParseTokens(tokens: seq<Token>, start: nat, end: nat, ghost ls: seq<Lexeme>) returns (r: Result<ArrayNode, PhpError>)
    requires Same(tokens, ls) && Quotes(tokens) && start <= end <= |tokens|
    ensures r.Ok? <==> ParseArray(ls[start..end]).Ok?
    ensures r.Err? ==> RangeError(ls, start, end) == Some(r.error)
    ensures r.Ok? ==> ValidArray(ParseArray(ls[start..end]).value) && r.value == NodeOf(ParseArray(ls[start..end]).value, start)
  {
    hide RangeError, MatchLength, Split, CheckKeys, ArgLength, FoldsTo, Ranges, Flat, EntriesOf, PartKey, ValidParts, DistinctKeys, Segmented, ValidArray, HeadLength, Quotes, ParseArray, Unparse;
    HeadTokens(tokens, ls, start, end);
    if HeadLength(ls[start..end]).Err? { RangeHead(ls, start, end); }
    var open := start;
    if open < end && FoldsTo(tokens[open].text, "array") { open := open + 1; }
    if open >= end || (tokens[open].text != "[" && tokens[open].text != "(") || (open == start && tokens[open].text != "[") {
      return Err(NotLiteralArray);
    }
    ParseSteps(ls, start, end, open);
    RangeSteps(ls, start, end, open);
    var close := Matching(tokens, open, ls);
    if close.Err? { return Err(close.error); }
    if close.value + 1 != end { return Err(ComputedArray); }
    var segments := Segments(tokens, open + 1, close.value, ls);
    ghost var inner := Split(ls[open + 1..end - 1]);
    SegmentedOk(inner, open + 1);
    if segments.Err? { return Err(segments.error); }
    SegmentsStand(ls, open + 1, close.value, inner.value, segments.value);
    var entries := Entries(tokens, segments.value, ls, inner.value, open + 1);
    if entries.Err? { return Err(entries.error); }
    return Ok(ArrayNode(open, close.value, entries.value));
  }

  lemma SegmentsStand(ls: seq<Lexeme>, at: nat, end: nat, parts: seq<Part>, segments: seq<(nat, nat)>)
    requires at <= end <= |ls| && Split(ls[at..end]) == Ok(parts) && Segmented([], Ok(parts), at) == Ok(segments)
    ensures segments == Ranges(parts, at)
    ensures forall k :: 0 <= k < |parts| ==> segments[k].0 <= segments[k].1 <= |ls| && ls[segments[k].0..segments[k].1] == parts[k].arg
  {
    hide Split, Ranges, Flat;
    SegmentedIs(parts, at, segments);
    SplitFlat(ls[at..end]);
    forall k | 0 <= k < |parts|
      ensures segments[k].0 <= segments[k].1 <= |ls| && ls[segments[k].0..segments[k].1] == parts[k].arg
    {
      RangeSlices(parts, at, ls, k);
    }
  }

  lemma SegmentedOk(r: Result<seq<Part>, PhpError>, at: nat)
    ensures Segmented([], r, at).Ok? <==> r.Ok?
    ensures r.Ok? ==> r == Ok(r.value)
    ensures r.Err? ==> Segmented([], r, at) == Err(r.error)
  {
  }

  lemma MatchGroup(g: seq<Lexeme>)
    requires g != [] && IsOpen(g[0].Txt()) && MatchLength(g, []).Ok?
    ensures MatchLength(g, []).value >= 2
  {
  }

  lemma SegmentedIs(parts: seq<Part>, at: nat, r: seq<(nat, nat)>)
    requires Segmented([], Ok(parts), at) == Ok(r)
    ensures r == Ranges(parts, at)
  {
  }

  // ----- the returned array -----

  /** What the walk has found before token i. */
  ghost predicate FoundBefore(ls: seq<Lexeme>, i: nat, found: Option<ArrayNode>, s: nat, e: nat)
    requires i <= |ls|
  {
    match found
    case None => NextReturn(ls, 0) == NextReturn(ls, i)
    case Some(node) =>
      && NextReturn(ls, 0) == Ok(s - 1) && s <= e < |ls| && ArrayEnd(ls, s) == Ok(e) && ParseArray(ls[s..e]).Ok?
      && ValidArray(ParseArray(ls[s..e]).value) && node == NodeOf(ParseArray(ls[s..e]).value, s)
      && NextReturn(ls, e + 1) == NextReturn(ls, i)
  }

  /** The steps of finding where a returned array ends. */
  lemma EndSteps(tokens: seq<Token>, ls: seq<Lexeme>, start: nat)
    requires Same(tokens, ls) && start <= |tokens|
    ensures |tokens| == |ls|
    ensures start < |ls| ==> tokens[start].text == ls[start].Txt()
    ensures var k := if start < |tokens| && FoldsTo(tokens[start].text, "array") then start + 1 else start;
      ArrayEnd(ls, start) ==
        if k >= |tokens| || (tokens[k].text != "[" && tokens[k].text != "(") then Err(NoReturnedArray)
        else
          match MatchLength(ls[k..], [])
          case Err(e) => Err(e)
          case Ok(n) => if k + n >= |tokens| || tokens[k + n].text != ";" then Err(ComputedReturn) else Ok(k + n)
  {
    hide MatchLength, FoldsTo;
  }

  /** The array behind a `return`. */
  method ReturnValue(tokens: seq<Token>, start: nat, ghost ls: seq<Lexeme>) returns (r: Result<ArrayNode, PhpError>)
    requires Same(tokens, ls) && Quotes(tokens) && start <= |tokens|
    ensures r.Ok? <==> ArrayEnd(ls, start).Ok? && ParseArray(ls[start..ArrayEnd(ls, start).value]).Ok?
    ensures r.Err? ==> if ArrayEnd(ls, start).Err? then ArrayEnd(ls, start) == Err(r.error) else ParseArray(ls[start..ArrayEnd(ls, start).value]) == Err(r.error)
    ensures r.Ok? ==>
      var e := ArrayEnd(ls, start).value;
      ValidArray(ParseArray(ls[start..e]).value) && r.value == NodeOf(ParseArray(ls[start..e]).value, start) && r.value.close + 1 == e
  {
    hide MatchLength, FoldsTo, ParseArray, Unparse, ValidArray, EntriesOf, ArrayEnd, RangeError, Quotes, NodeOf, Same;
    EndSteps(tokens, ls, start);
    var open := start;
    if open < |tokens| && FoldsTo(tokens[open].text, "array") { open := open + 1; }
    if open >= |tokens| || (tokens[open].text != "[" && tokens[open].text != "(") { return Err(NoReturnedArray); }
    var close := Matching(tokens, open, ls);
    if close.Err? { return Err(close.error); }
    if close.value + 1 >= |tokens| || tokens[close.value + 1].text != ";" { return Err(ComputedReturn); }
    ghost var end := close.value + 1;
    assert ArrayEnd(ls, start) == Ok(end);
    ReturnCloses(ls, start, open, end);
    r := ParseTokens(tokens, start, close.value + 1, ls);
    if r.Ok? { NodeEnd(ls, start, end); }
  }

  /** The bracket of a returned array closes where the array ends. */
  lemma ReturnCloses(ls: seq<Lexeme>, start: nat, open: nat, end: nat)
    requires start <= open < end <= |ls| && open == (if FoldsTo(ls[start].Txt(), "array") then start + 1 else start)
    requires MatchLength(ls[open..], []) == Ok(end - open)
    ensures ParseArray(ls[start..end]).Err? ==> RangeError(ls, start, end) == Some(ParseArray(ls[start..end]).error)
  {
    hide MatchLength, ParseArray, RangeError, FoldsTo, HeadLength;
    var xs := ls[start..end];
    MatchWithin(ls[open..end], ls[end..], []);
    assert ls[open..] == ls[open..end] + ls[end..];
    assert xs[open - start..] == ls[open..end];
    HeadAt(ls, start, end, open);
    RangeParse(ls, start, end);
  }

  lemma HeadAt(ls: seq<Lexeme>, start: nat, end: nat, open: nat)
    requires start <= open < end <= |ls| && open == (if FoldsTo(ls[start].Txt(), "array") then start + 1 else start)
    ensures HeadLength(ls[start..end]).Ok? ==> HeadLength(ls[start..end]).value == open - start + 1
  {
  }

  lemma NodeEnd(ls: seq<Lexeme>, start: nat, end: nat)
    requires start <= end <= |ls| && ParseArray(ls[start..end]).Ok?
    ensures ValidArray(ParseArray(ls[start..end]).value) && NodeOf(ParseArray(ls[start..end]).value, start).close + 1 == end
  {
    hide ParseArray, ValidArray, EntriesOf;
    ParseUnparse(ls[start..end]);
  }

  /** The scan for a return goes past a bracketed group ... */
  lemma FoundPastGroup(ls: seq<Lexeme>, i: nat, found: Option<ArrayNode>, s: nat, e: nat)
    requires i < |ls| && FoundBefore(ls, i, found, s, e) && IsOpen(ls[i].Txt())
    ensures
      var m := MatchLength(ls[i..], []);
      if m.Ok? then i + m.value <= |ls| && FoundBefore(ls, i + m.value, found, s, e) else Returned(ls) == Err(m.error)
  {
    hide MatchLength, ParseArray, ArrayEnd, NodeOf, ValidArray;
  }

  /** ... and past any other token. */
  lemma FoundPastToken(ls: seq<Lexeme>, i: nat, found: Option<ArrayNode>, s: nat, e: nat)
    requires i < |ls| && FoundBefore(ls, i, found, s, e) && !IsOpen(ls[i].Txt()) && !IsReturn(ls, i)
    ensures FoundBefore(ls, i + 1, found, s, e)
  {
  }

  /** A return must be the only one, and return a literal array. */
  lemma FoundHere(ls: seq<Lexeme>, i: nat, found: Option<ArrayNode>, s: nat, e: nat)
    requires i < |ls| && FoundBefore(ls, i, found, s, e) && !IsOpen(ls[i].Txt()) && IsReturn(ls, i)
    ensures found.Some? ==> Returned(ls) == Err(MultipleReturns)
    ensures found.None? ==>
      var end := ArrayEnd(ls, i + 1);
      if end.Ok? && ParseArray(ls[i + 1..end.value]).Ok? then
        ValidArray(ParseArray(ls[i + 1..end.value]).value) ==> FoundBefore(ls, end.value + 1, Some(NodeOf(ParseArray(ls[i + 1..end.value]).value, i + 1)), i + 1, end.value)
      else Returned(ls) == Err(if end.Err? then end.error else ParseArray(ls[i + 1..end.value]).error)
  {
    hide MatchLength, ParseArray, ArrayEnd, NodeOf, ValidArray, FoldsTo, IsReturn;
  }

  lemma FoundAtEnd(ls: seq<Lexeme>, found: Option<ArrayNode>, s: nat, e: nat)
    requires FoundBefore(ls, |ls|, found, s, e)
    ensures if found.Some? then Returned(ls) == Ok((s, e)) && s <= e <= |ls| && ParseArray(ls[s..e]).Ok? && ValidArray(ParseArray(ls[s..e]).value) && found.value == NodeOf(ParseArray(ls[s..e]).value, s) else Returned(ls) == Err(NoReturnedArray)
  {
    hide MatchLength, ParseArray, ArrayEnd, NodeOf, ValidArray, FoldsTo, IsReturn;
  }

  /** phpReturnedArray */
  method ReturnedArray(tokens: seq<Token>, ghost ls: seq<Lexeme>) returns (r: Result<ArrayNode, PhpError>)
    requires Same(tokens, ls) && Quotes(tokens)
    ensures r.Ok? <==> Returned(ls).Ok?
    ensures r.Err? ==> Returned(ls) == Err(r.error)
    ensures r.Ok? ==>
      var (s, e) := Returned(ls).value;
      s <= e <= |ls| && ParseArray(ls[s..e]).Ok? && ValidArray(ParseArray(ls[s..e]).value) && r.value == NodeOf(ParseArray(ls[s..e]).value, s)
    ensures Balanced(ls) ==> if r.Ok? then RT.ReturnsArray(ls, Returned(ls).value.0, Returned(ls).value.1) else forall s: nat, e: nat :: !RT.ReturnsArray(ls, s, e)
  {
    hide MatchLength, FoldsTo, ParseArray, ArrayEnd, NodeOf, ValidArray, FoundBefore, Returned, Quotes, NextReturn, Balanced, RT.ReturnsArray;
    if Balanced(ls) { RT.ReturnedDecides(ls); }
    var found: Option<ArrayNode> := None;
    ghost var s, e := 0, 0;
    var i := 0;
    FoundNone(ls);
    while i < |tokens|
      invariant i <= |tokens| == |ls| && FoundBefore(ls, i, found, s, e)
    {
      var t := tokens[i].text;
      if t == "[" || t == "(" || t == "{" {
        FoundPastGroup(ls, i, found, s, e);
        var close := Matching(tokens, i, ls);
        if close.Err? { return Err(close.error); }
        i := close.value + 1;
        continue;
      }
      if !FoldsTo(t, "return") || (i > 0 && (tokens[i - 1].text == "$" || tokens[i - 1].text == "->" || tokens[i - 1].text == "::")) {
        assert !IsReturn(ls, i);
        FoundPastToken(ls, i, found, s, e);
        i := i + 1;
        continue;
      }
      assert IsReturn(ls, i);
      FoundHere(ls, i, found, s, e);
      if found.Some? { return Err(MultipleReturns); }
      var node := ReturnValue(tokens, i + 1, ls);
      if node.Err? { return Err(node.error); }
      s, e := i + 1, ArrayEnd(ls, i + 1).value;
      found := Some(node.value);
      i := node.value.close + 2;
    }
    FoundAtEnd(ls, found, s, e);
    match found
    case None => return Err(NoReturnedArray);
    case Some(array') => return Ok(array');
  }

  lemma FoundNone(ls: seq<Lexeme>)
    ensures FoundBefore(ls, 0, None, 0, 0)
  {
  }
}
