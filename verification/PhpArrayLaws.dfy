/** The laws of patchPHPArrayValue. */
module PhpArrayLaws {
  import opened Text
  import opened PhpLexer
  import opened PhpTokens
  import opened PhpLiterals
  import opened PhpSplice
  import opened PhpScalars
  import opened PhpArray
  import opened PhpEntries
  import opened PhpArrayPatch
  import opened PhpArrayLens

  /** The text at the path, if the path leads to a value. */
  function ReadText(src: string, path: seq<string>): Option<string> {
    match Read(src, path)
    case Value(val) => if val == [] then None else Some(ValueText(val))
    case _ => None
  }

  /** The path does not lead to a value whose first token is a `?>` that ends a
      line comment. */
  predicate Placeable(src: string, path: seq<string>) {
    match Read(src, path)
    case Value(val) => val != [] ==> !Swallowed(val[0])
    case _ => true
  }

  /** Replacing the returned array replaces what is read. */
  lemma ReadAfter(src: string, d: Doc, s: nat, e: nat, arr: seq<Lexeme>, src': string, q: seq<string>)
    requires Returned(d.lexemes) == Ok((s, e)) && ParseArray(arr).Ok?
    requires s <= e <= |d.lexemes| && Parse(src') == Ok(Doc(d.lexemes[..s] + arr + d.lexemes[e..], d.tail))
    ensures Read(src', q) == Lookup(arr, q)
  {
    hide Parse, Returned, Lookup, ParseArray;
    ReturnedSplice(d.lexemes, arr);
    var ls' := d.lexemes[..s] + arr + d.lexemes[e..];
    assert ls'[s..s + |arr|] == arr;
    ReadIs(src', Doc(ls', d.tail), s, s + |arr|, q);
  }

  lemma PutParses(ls: seq<Lexeme>, path: seq<string>, x: seq<Lexeme>)
    requires Neutral(ls) && ls != [] && Lookup(ls, path).Value? && Neutral(x) && x != []
    requires path == [] ==> ParseArray(x).Ok?
    ensures ParseArray(Put(ls, path, x)).Ok?
  {
    hide LiteralKey, ArgLength, ParseArray, FindKey;
    if path != [] {
      ParseUnparse(ls);
      var v := ParseArray(ls).value;
      var k := FindKey(v.parts, path[0]);
      var arg := v.parts[k].arg;
      assert ValidPart(v.parts[k]);
      EntryHead(arg);
      PutNeutral(arg[2..], path[1..], x);
      SetPartValid(v, k, Put(arg[2..], path[1..], x));
      UnparseParse(SetPart(v, k, Put(arg[2..], path[1..], x)));
    }
  }

  /** A splice inside the returned array is a Put in the document. */
  lemma PutInDoc(ls: seq<Lexeme>, s: nat, e: nat, path: seq<string>, x: seq<Lexeme>)
    requires s <= e <= |ls| && Lookup(ls[s..e], path).Value?
    ensures var arr := ls[s..e];
      var i, n := s + Focus(arr, path), |Lookup(arr, path).tokens|;
      i + n <= |ls| && ls[..i] + x + ls[i + n..] == ls[..s] + Put(arr, path, x) + ls[e..]
  {
    hide Lookup, Focus, Put;
    var arr := ls[s..e];
    PutSplice(arr, path, x);
    SpliceWithin(ls, arr, s, Focus(arr, path), |Lookup(arr, path).tokens|, x);
  }

  // ----- a value that exists -----

  /** Replacing the text of a value replaces the value in the array. */
  lemma ReplaceParse(src: string, d: Doc, s: nat, e: nat, path: seq<string>, value: string)
    requires Parse(src) == Ok(d) && Returned(d.lexemes) == Ok((s, e)) && path != [] && Read(src, path).Value?
    requires Placeable(src, path) && IsLiteral(value)
    ensures s <= e <= |d.lexemes| && Lookup(d.lexemes[s..e], path) == Read(src, path) && Read(src, path).tokens != []
    ensures LiteralPieces(value) != []
    ensures var x := ValueLexemes(Read(src, path).tokens[0].gap, LiteralPieces(value));
      Parse(ReplaceText(src, d, s, e, path, value)) == Ok(Doc(d.lexemes[..s] + Put(d.lexemes[s..e], path, x) + d.lexemes[e..], d.tail))
  {
    hide Parse, Returned, Lookup, Focus, Put, ParseArray, Read, IsLiteral, LiteralPieces, ValueLexemes, Start, End, ArgLength, Swallowed, Balanced;
    ReturnedNeutral(d.lexemes);
    ReadIs(src, d, s, e, path);
    var ls, arr, val := d.lexemes, d.lexemes[s..e], Read(src, path).tokens;
    var i, n := s + Focus(arr, path), |val|;
    ValueInDoc(src, d, s, e, path);
    LookupNeutral(arr, path);
    NeutralBalanced(val);
    assert ls[i] == val[0] by { assert ls[i..i + n][0] == ls[i]; }
    NotOpen(src, d, i);
    LiteralPiecesNonempty(value);
    ReplaceValue(src, d, i, i + n, value);
    PutInDoc(ls, s, e, path, ValueLexemes(val[0].gap, LiteralPieces(value)));
  }

  lemma NotOpen(src: string, d: Doc, i: nat)
    requires Parse(src) == Ok(d) && 0 < i < |d.lexemes| && d.lexemes[i - 1].Txt() == "=>"
    ensures d.lexemes[i].token.kind != Open
  {
    hide Parse, Pieces, ModeAfter;
    ModeAt(src, d, i - 1);
    ModeAt(src, d, i);
  }

  /** A value that exists is replaced; every other path is undisturbed. */
  lemma ReplaceReads(src: string, path: seq<string>, value: string, q: seq<string>)
    requires Read(src, path).Value? && path != [] && Placeable(src, path) && IsLiteral(value)
    ensures PatchArray(src, path, value).Ok?
    ensures var src' := PatchArray(src, path, value).value;
      && ReadText(src', path) == Some(value) && Placeable(src', path)
      && (Diverge(path, q) ==> Read(src', q) == Read(src, q))
  {
    hide Parse, Returned, Lookup, Focus, Put, ParseArray, IsLiteral, LiteralPieces, ArgLength, ReplaceText, ValueText;
    var d := Parse(src).value;
    var (s, e) := Returned(d.lexemes).value;
    ReadIs(src, d, s, e, path);
    ReadIs(src, d, s, e, q);
    ReplaceParse(src, d, s, e, path, value);
    ReturnedNeutral(d.lexemes);
    var gap := Read(src, path).tokens[0].gap;
    var arr, x := d.lexemes[s..e], ValueLexemes(gap, LiteralPieces(value));
    ValueNeutral(gap, value);
    PutParses(arr, path, x);
    PutLookup(arr, path, x, []);
    assert path + [] == path;
    var src' := ReplaceText(src, d, s, e, path, value);
    ReadAfter(src, d, s, e, Put(arr, path, x), src', path);
    LookupSelf(x);
    LiteralText(gap, value);
    if Diverge(path, q) {
      PutFrame(arr, path, x, q);
      ReadAfter(src, d, s, e, Put(arr, path, x), src', q);
    }
  }

  lemma LookupSelf(x: seq<Lexeme>)
    ensures Lookup(x, []) == Value(x)
  {
  }

  lemma ValueNeutral(gap: seq<Piece>, value: string)
    requires IsLiteral(value)
    ensures Neutral(ValueLexemes(gap, LiteralPieces(value))) && LiteralPieces(value) != []
  {
    LiteralPiecesNonempty(value);
    PlainNeutral(ValueLexemes(gap, LiteralPieces(value)));
  }

  // ----- a value that is missing -----

  /** Inserting the text of an entry appends the entry to the deepest array. */
  lemma InsertTextParse(src: string, d: Doc, s: nat, e: nat, path: seq<string>, value: string)
      returns (v: ArrayView, gap: seq<Piece>, indent: string, eol: string, last: seq<Piece>)
    requires Parse(src) == Ok(d) && Returned(d.lexemes) == Ok((s, e)) && Read(src, path) == Missing && IsLiteral(value)
    ensures s <= e <= |d.lexemes| && ValidArray(v)
    ensures var arr := d.lexemes[s..e];
      var n := Depth(arr, path);
      && n < |path| && Lookup(arr, path[..n]) == Value(Unparse(v)) && FindKey(v.parts, path[n]) < 0
      && Parse(InsertText(src, d, s, e, path, value)) == Ok(Doc(
        d.lexemes[..s] + Put(arr, path[..n], Unparse(Append(v, NewEntry(gap, path[n..], value, indent, eol), last))) + d.lexemes[e..], d.tail))
  {
    hide Parse, Returned, Lookup, Focus, Put, ParseArray, IsLiteral, Depth, NewEntry, Append, Unparse, Stands, InsertEntry, FindKey;
    ReadIs(src, d, s, e, path);
    HolderStands(src, d, s, e, path);
    var arr := d.lexemes[s..e];
    var n := Depth(arr, path);
    DepthMissing(arr, path);
    var val := Lookup(arr, path[..n]).tokens;
    ParseUnparse(val);
    v := ParseArray(val).value;
    gap, indent, eol, last := InsertParse(src, d, s + Focus(arr, path[..n]), v, path[n..], value);
    PutInDoc(d.lexemes, s, e, path[..n], Unparse(Append(v, NewEntry(gap, path[n..], value, indent, eol), last)));
  }

  /** The array with the new entry. */
  lemma AppendedArray(v: ArrayView, rest: seq<string>, gap: seq<Piece>, value: string, indent: string, eol: string, last: seq<Piece>)
    requires ValidArray(v) && rest != [] && FindKey(v.parts, rest[0]) < 0 && IsLiteral(value)
    ensures var x := Unparse(Append(v, NewEntry(gap, rest, value, indent, eol), last));
      && Neutral(x) && x != [] && ParseArray(x).Ok? && LiteralPieces(value) != []
      && Lookup(x, rest) == Value(ValueLexemes(Blanks(" "), LiteralPieces(value)))
  {
    hide ParseArray, IsLiteral, LiteralPieces, ArgLength, Append, Nested, EntryPart, ValueLexemes, PartKey;
    LiteralPiecesNonempty(value);
    NestedLookup(Blanks(" "), rest[1..], LiteralPieces(value), indent, eol);
    var sub := NewSub(rest, value, indent, eol);
    EntryPartValid(gap, rest[0], sub);
    var p := NewEntry(gap, rest, value, indent, eol);
    AppendLookup(v, p, last, rest);
    AppendValid(v, p, last);
    UnparseParse(Append(v, p, last));
  }

  /** A path that parts from the written one reads as before. */
  lemma InsertFrame(arr: seq<Lexeme>, path: seq<string>, n: nat, v: ArrayView, gap: seq<Piece>, value: string, indent: string, eol: string, last: seq<Piece>, q: seq<string>)
    requires Neutral(arr) && arr != [] && n < |path| && Lookup(arr, path[..n]) == Value(Unparse(v))
    requires ValidArray(v) && FindKey(v.parts, path[n]) < 0 && IsLiteral(value) && Diverge(path, q)
    ensures Lookup(Put(arr, path[..n], Unparse(Append(v, NewEntry(gap, path[n..], value, indent, eol), last))), q) == Lookup(arr, q)
  {
    hide ParseArray, IsLiteral, LiteralPieces, ArgLength, Append, NewEntry, Put, Unparse, ValidArray, FindKey, Lookup;
    var p, rest := path[..n], path[n..];
    var x := Unparse(Append(v, NewEntry(gap, rest, value, indent, eol), last));
    AppendedArray(v, rest, gap, value, indent, eol, last);
    if Diverge(p, q) {
      PutFrame(arr, p, x, q);
    } else {
      var i :| 0 <= i < |path| && i < |q| && path[i] != q[i];
      assert forall j :: 0 <= j < n && j < |q| ==> p[j] == q[j];
      assert forall j :: 0 <= j < n ==> p[j] == path[j];
      var r := q[n..];
      assert q == p + r;
      assert rest[i - n] != r[i - n];
      PutLookup(arr, p, x, r);
      LookupConcat(arr, p, r);
      NewEntryElsewhere(v, rest, gap, value, indent, eol, last, r);
    }
  }

  lemma NewEntryElsewhere(v: ArrayView, rest: seq<string>, gap: seq<Piece>, value: string, indent: string, eol: string, last: seq<Piece>, r: seq<string>)
    requires ValidArray(v) && rest != [] && FindKey(v.parts, rest[0]) < 0 && IsLiteral(value) && Diverge(rest, r)
    ensures Lookup(Unparse(Append(v, NewEntry(gap, rest, value, indent, eol), last)), r) == Lookup(Unparse(v), r)
  {
    hide ParseArray, IsLiteral, LiteralPieces, ArgLength, Append, Nested, EntryPart, PartKey, ValueLexemes;
    LiteralPiecesNonempty(value);
    NestedLookup(Blanks(" "), rest[1..], LiteralPieces(value), indent, eol);
    EntryPartValid(gap, rest[0], NewSub(rest, value, indent, eol));
    AppendLookup(v, NewEntry(gap, rest, value, indent, eol), last, r);
    UnparseParse(v);
    if r[0] == rest[0] {
      var i :| 0 <= i < |rest| && i < |r| && rest[i] != r[i];
      assert rest[1..][i - 1] != r[1..][i - 1];
      NestedMissing(Blanks(" "), rest[1..], LiteralPieces(value), indent, eol, r[1..]);
    }
  }

  lemma InsertReads(src: string, path: seq<string>, value: string, q: seq<string>)
    requires Read(src, path) == Missing && Parse(src).Ok? && Returned(Parse(src).value.lexemes).Ok? && IsLiteral(value)
    ensures PatchArray(src, path, value).Ok?
    ensures var src' := PatchArray(src, path, value).value;
      && ReadText(src', path) == Some(value) && Placeable(src', path)
      && (Diverge(path, q) ==> Read(src', q) == Read(src, q))
  {
    hide Parse, Returned, Lookup, Focus, Put, ParseArray, IsLiteral, LiteralPieces, ArgLength, InsertText, ValueText, Depth, NewEntry, Append, Unparse;
    var d := Parse(src).value;
    var (s, e) := Returned(d.lexemes).value;
    ReadIs(src, d, s, e, path);
    ReadIs(src, d, s, e, q);
    HolderStands(src, d, s, e, path);
    var arr := d.lexemes[s..e];
    var n := Depth(arr, path);
    var v, gap, indent, eol, last := InsertTextParse(src, d, s, e, path, value);
    var part := NewEntry(gap, path[n..], value, indent, eol);
    var x := Unparse(Append(v, part, last));
    ReturnedNeutral(d.lexemes);
    AppendedArray(v, path[n..], gap, value, indent, eol, last);
    PutParses(arr, path[..n], x);
    var src' := InsertText(src, d, s, e, path, value);
    ReadAfter(src, d, s, e, Put(arr, path[..n], x), src', path);
    PutLookup(arr, path[..n], x, path[n..]);
    assert path[..n] + path[n..] == path;
    LiteralText(Blanks(" "), value);
    NotSwallowed(value);
    if Diverge(path, q) {
      ReadAfter(src, d, s, e, Put(arr, path[..n], x), src', q);
      InsertFrame(arr, path, n, v, gap, value, indent, eol, last, q);
    }
  }

  lemma NotSwallowed(value: string)
    requires IsLiteral(value)
    ensures LiteralPieces(value) != [] && !Swallowed(ValueLexemes(Blanks(" "), LiteralPieces(value))[0])
  {
  }

  // ----- the laws -----

  /** patchPHPArrayValue succeeds exactly when the source returns a literal array
      and the path stays within literal arrays. */
  lemma PatchSucceeds(src: string, path: seq<string>, value: string)
    ensures PatchArray(src, path, value).Ok? <==>
      path != [] && Parse(src).Ok? && Returned(Parse(src).value.lexemes).Ok? && Read(src, path) != NotArray
  {
    hide Parse, Returned, Read, ReplaceText, InsertText;
  }

  lemma NotArrayFirst(src: string, path: seq<string>)
    requires Parse(src).Err? || Returned(Parse(src).value.lexemes).Err?
    ensures Read(src, path) == NotArray
  {
  }

  /** What was written is read back, and every path that parts from the written
      one reads exactly the same tokens as before. */
  lemma PatchReads(src: string, path: seq<string>, value: string, q: seq<string>)
    requires PatchArray(src, path, value).Ok? && IsLiteral(value) && Placeable(src, path)
    ensures var src' := PatchArray(src, path, value).value;
      && ReadText(src', path) == Some(value) && Placeable(src', path)
      && (Diverge(path, q) ==> Read(src', q) == Read(src, q))
  {
    hide Parse, Returned, Read, ReplaceText, InsertText, ReadText, Placeable, IsLiteral, PatchArray;
    PatchSucceeds(src, path, value);
    if Read(src, path).Value? {
      ReplaceReads(src, path, value, q);
    } else {
      InsertReads(src, path, value, q);
    }
  }

  /** Writing what is already there changes nothing. */
  lemma PatchSame(src: string, path: seq<string>, value: string)
    requires path != [] && ReadText(src, path) == Some(value)
    ensures PatchArray(src, path, value) == Ok(src)
  {
    hide Parse, Returned, Lookup, Focus, ValueText, Start, End, Read;
    if Parse(src).Err? || Returned(Parse(src).value.lexemes).Err? { NotArrayFirst(src, path); }
    var d := Parse(src).value;
    var (s, e) := Returned(d.lexemes).value;
    ValueInDoc(src, d, s, e, path);
    var i, n := s + Focus(d.lexemes[s..e], path), |Read(src, path).tokens|;
    ValueOffsets(src, d, i, n);
    var a, b := Start(d.lexemes, i), End(d.lexemes, i + n - 1);
    assert src == src[..a] + src[a..b] + src[b..];
  }

  /** A second run changes nothing. */
  lemma PatchIdempotent(src: string, path: seq<string>, value: string)
    requires PatchArray(src, path, value).Ok? && IsLiteral(value) && Placeable(src, path)
    ensures PatchArray(PatchArray(src, path, value).value, path, value) == PatchArray(src, path, value)
  {
    hide PatchArray, ReadText, Placeable, IsLiteral, Read;
    PatchReads(src, path, value, path);
    PatchSucceeds(src, path, value);
    PatchSame(PatchArray(src, path, value).value, path, value);
  }

  // ----- the bytes -----

  /** out is src with a text put in at j, which is before offset close with only
      spaces between; and, if it takes one, with a comma at a. */
  predicate Inserted(src: string, out: string, comma: bool, a: nat, j: nat, close: nat, text: string) {
    && j <= close <= |src| && AllSpace(src[j..close])
    && if comma then a <= j && out == src[..a] + "," + src[a..j] + text + src[j..] else out == src[..j] + text + src[j..]
  }

  /** out is src with the span from i to j, which is t, replaced. */
  predicate Replaced(src: string, out: string, i: nat, j: nat, t: string, value: string) {
    i <= j <= |src| && src[i..j] == t && out == src[..i] + value + src[j..]
  }

  /** The line of a new entry. */
  function EntryLine(path: seq<string>, value: string, indent: string, eol: string): string
    requires path != []
  {
    indent + SingleQuoted(path[0]) + " => " + NestedText(path[1..], value, indent, eol) + "," + eol
  }

  /** m is what the line of pos starts with, up to pos: all its spaces and tabs. */
  ghost predicate IsMargin(s: string, pos: nat, m: string) {
    exists n: nat :: StartsLine(s, n, pos) && MarginFrom(s, n, pos, m)
  }

  predicate MarginFrom(s: string, n: nat, pos: nat, m: string)
    requires n <= pos <= |s|
  {
    && n + |m| <= pos && s[n..n + |m|] == m
    && (forall i :: 0 <= i < |m| ==> MarginChar(m[i])) && (n + |m| < pos ==> !MarginChar(s[n + |m|]))
  }

  predicate MarginChar(c: char) { c == ' ' || c == '\t' }

  /** A new entry is as far in as the first one, if that is further in than its array,
      and else four spaces further in than the array. */
  ghost predicate EntryMargin(s: string, firstKey: Option<nat>, base: string, indent: string) {
    if firstKey.Some? && exists m :: IsMargin(s, firstKey.value, m) && |m| > |base| then IsMargin(s, firstKey.value, indent) && |indent| > |base|
    else indent == base + "    "
  }

  /** Where an entry goes: the text with its comma, the offsets of the array's opening
      and closing bracket and of its first key, and the offset for the entry. */
  datatype Gate = Gate(full: string, opening: nat, firstKey: Option<nat>, close: nat, at: nat)

  /** The text is the line of the entry, with the line break of the file; if something
      else stands before the closing bracket, between a line break and the margin of
      the array. */
  ghost predicate LineFor(g: Gate, text: string, path: seq<string>, value: string, eol: string, base: string, indent: string)
    requires path != []
  {
    && g.at <= g.close <= |g.full|
    && eol == (if Has(g.full, '\r', '\n') then "\r\n" else "\n")
    && IsMargin(g.full, g.opening, base) && EntryMargin(g.full, g.firstKey, base, indent)
    && var line := EntryLine(path, value, indent, eol);
      || (text == line && (g.at == 0 || g.full[g.at - 1] == '\n') && AllSpace(g.full[g.at..g.close]))
      || (text == eol + line + base && g.at == g.close && MidLine(g.full, g.close))
  }

  ghost predicate EntryText(g: Gate, text: string, path: seq<string>, value: string)
    requires path != []
  {
    exists eol, base, indent :: LineFor(g, text, path, value, eol, base, indent)
  }

  /** The tokens val, which start with token i, gave way to the value. */
  predicate ValueBytes(src: string, d: Doc, i: nat, val: seq<Lexeme>, value: string, out: string) {
    && val != [] && i + |val| <= |d.lexemes| && d.lexemes[i..i + |val|] == val
    && Replaced(src, out, Start(d.lexemes, i), End(d.lexemes, i + |val| - 1), ValueText(val), value)
  }

  /** The array v, which starts with token i, got a new last entry: its text stands
      before the closing bracket, and a comma behind the entry before it if that one
      had none. */
  ghost predicate EntryBytes(src: string, d: Doc, i: nat, v: ArrayView, path: seq<string>, value: string, out: string)
    requires path != []
  {
    && Stands(d, i, v)
    && var c: int := i + |Unparse(v)| - 1;
      && 0 < c < |d.lexemes| && 0 < |v.head| && i + |v.head| <= c
      && var firstKey := if v.parts == [] then None else Some(Start(d.lexemes, i + |v.head|));
        EntryAdded(src, out, NeedsComma(v), End(d.lexemes, c - 1), Start(d.lexemes, i + |v.head| - 1), firstKey, Start(d.lexemes, c), path, value)
  }

  ghost predicate EntryAdded(src: string, out: string, comma: bool, a: nat, opening: nat, firstKey: Option<nat>, close: nat, path: seq<string>, value: string)
    requires path != []
  {
    exists j: nat, text :: Inserted(src, out, comma, a, j, close, text) && EntryText(GateOf(src, comma, a, opening, firstKey, close, j), text, path, value)
  }

  /** The gate at offset j of src, in the text with the comma at a if there is one. */
  function GateOf(src: string, comma: bool, a: nat, opening: nat, firstKey: Option<nat>, close: nat, j: nat): Gate {
    if comma then Gate(if a <= |src| then src[..a] + "," + src[a..] else src, opening, firstKey, close + 1, j + 1) else Gate(src, opening, firstKey, close, j)
  }

  /** out is src after the patch: the value that the path leads to gave way, or the
      last array on the path got an entry for the rest of the path. */
  ghost predicate PatchedBytes(src: string, path: seq<string>, value: string, out: string) {
    hide Parse, Returned, Lookup, Focus, ParseArray, Depth, ValueBytes, EntryBytes, Stands;
    && Parse(src).Ok? && Returned(Parse(src).value.lexemes).Ok?
    && var d := Parse(src).value;
    var (s, e) := Returned(d.lexemes).value;
    && s <= e <= |d.lexemes|
    && var arr := d.lexemes[s..e];
    match Lookup(arr, path)
    case Value(val) => ValueBytes(src, d, s + Focus(arr, path), val, value, out)
    case Missing =>
      var n := Depth(arr, path);
      && n < |path| && Holder(d, s, e, path[..n])
      && EntryBytes(src, d, s + Focus(arr, path[..n]), ParseArray(Lookup(arr, path[..n]).tokens).value, path[n..], value, out)
    case NotArray => false
  }

  /** The source with its comma, cut behind the comma. */
  lemma CommaSplit(src: string, e: nat, n: nat)
    requires e < n <= |src| + 1
    ensures var src1 := src[..e] + "," + src[e..];
      src1[..n] == src[..e] + "," + src[e..n - 1] && src1[n..] == src[n - 1..]
  {
  }

  /** What InsertLine computes at the start of a line is the margin. */
  lemma IndentIs(s: string, pos: nat)
    requires pos <= |s|
    ensures IsMargin(s, pos, Indent(s, pos))
  {
    hide LineStart;
    LineFound(s, pos);
    var n := LineStart(s[..pos]);
    MarginIs(s[n..pos]);
    assert StartsLine(s, n, pos);
    var m := Indent(s, pos);
    assert s[n..n + |m|] == s[n..pos][..|m|];
    assert n + |m| < pos ==> s[n + |m|] == s[n..pos][|m|];
  }

  lemma {:induction false} MarginIs(s: string)
    ensures |Margin(s)| <= |s| && s[..|Margin(s)|] == Margin(s) && forall i :: 0 <= i < |Margin(s)| ==> MarginChar(Margin(s)[i])
    ensures |Margin(s)| < |s| ==> !MarginChar(s[|Margin(s)|])
  {
    if s != "" && MarginChar(s[0]) { MarginIs(s[1..]); }
  }

  lemma OneMargin(s: string, pos: nat, m: string, m': string)
    requires IsMargin(s, pos, m) && IsMargin(s, pos, m')
    ensures m == m'
  {
    hide MarginFrom;
    var n: nat :| StartsLine(s, n, pos) && MarginFrom(s, n, pos, m);
    var n': nat :| StartsLine(s, n', pos) && MarginFrom(s, n', pos, m');
    OneStart(s, n, n', pos);
    Longest(s, n, pos, m, m');
  }

  lemma OneStart(s: string, n: nat, n': nat, pos: nat)
    requires StartsLine(s, n, pos) && StartsLine(s, n', pos)
    ensures n == n'
  {
  }

  lemma Longest(s: string, n: nat, pos: nat, m: string, m': string)
    requires n <= pos <= |s| && MarginFrom(s, n, pos, m) && MarginFrom(s, n, pos, m')
    ensures m == m'
  {
    assert forall i :: 0 <= i < |m| ==> s[n + i] == m[i];
    assert forall i :: 0 <= i < |m'| ==> s[n + i] == m'[i];
    assert |m| == |m'|;
  }

  lemma EntryIndentIs(s: string, opening: nat, firstKey: Option<nat>)
    requires opening <= |s| && (firstKey.Some? ==> firstKey.value <= |s|)
    ensures EntryMargin(s, firstKey, Indent(s, opening), EntryIndent(s, opening, firstKey))
  {
    hide IsMargin, Indent;
    if firstKey.Some? {
      IndentIs(s, firstKey.value);
      forall m | IsMargin(s, firstKey.value, m)
        ensures m == Indent(s, firstKey.value)
      {
        OneMargin(s, firstKey.value, m, Indent(s, firstKey.value));
      }
    }
  }

  /** InsertLine puts one text into the source. */
  lemma LineText1(src: string, close: nat, opening: nat, firstKey: Option<nat>, path: seq<string>, value: string) returns (n: nat, text: string)
    requires close <= |src| && opening <= |src| && (firstKey.Some? ==> firstKey.value <= |src|) && path != []
    ensures n <= close && InsertLine(src, close, opening, firstKey, path, value) == src[..n] + text + src[n..]
    ensures AllSpace(src[n..close]) && EntryText(Gate(src, opening, firstKey, close, n), text, path, value)
  {
    hide NestedText, SingleQuoted, Indent, EntryIndent, LineStart, Index, IsMargin, EntryMargin, MidLine, Has;
    var eol, base, indent := EOL(src), Indent(src, opening), EntryIndent(src, opening, firstKey);
    IndentIs(src, opening);
    EntryIndentIs(src, opening, firstKey);
    EolIs(src);
    LineFound(src, close);
    var assignment := EntryLine(path, value, indent, eol);
    n := LineStart(src[..close]);
    if AllSpace(src[n..close]) {
      text := assignment;
    } else {
      n, text := close, eol + assignment + base;
      Regrouped(src[..close], eol, assignment, base, src[close..]);
    }
    assert LineFor(Gate(src, opening, firstKey, close, n), text, path, value, eol, base, indent);
  }

  /** The line break of a file. */
  lemma EolIs(src: string)
    ensures EOL(src) == if Has(src, '\r', '\n') then "\r\n" else "\n"
  {
    NoPair(src, '\r', '\n');
    assert "\r\n" == ['\r', '\n'];
  }

  lemma Regrouped(a: string, b: string, c: string, d: string, e: string)
    ensures a + b + c + d + e == a + (b + c + d) + e
  {
  }

  /** The same where a comma was put in first. */
  lemma CommaInserted(src: string, e: nat, n: nat, close: nat, text: string, out: string)
    requires e <= close <= |src| && n <= close + 1
    requires var src1 := src[..e] + "," + src[e..]; AllSpace(src1[n..close + 1]) && out == src1[..n] + text + src1[n..]
    ensures e < n && Inserted(src, out, true, e, n - 1, close, text)
  {
    var src1 := src[..e] + "," + src[e..];
    assert src1[e] == ',';
    forall i | n <= i < close + 1
      ensures IsSpace(src1[i])
    {
      assert src1[i] == src1[n..close + 1][i - n];
    }
    CommaSplit(src, e, n);
    assert src1[n..close + 1] == src[n - 1..close];
  }

  /** Every byte outside the value's span survives; and a new entry comes as one
      stretch of text in its array, with a comma in front where one was missing. */
  lemma PatchBytes(src: string, path: seq<string>, value: string)
    requires PatchArray(src, path, value).Ok?
    ensures PatchedBytes(src, path, value, PatchArray(src, path, value).value)
  {
    hide Parse, Returned, Read, Lookup, Focus, Start, End, ParseArray, Stands, Depth, InsertLine, ValueText, ValidArray, Unparse, EntryBytes, ValueBytes, ReplaceText, InsertText;
    var d := Parse(src).value;
    var (s, e) := Returned(d.lexemes).value;
    ReturnedBounds(d.lexemes);
    ReadIs(src, d, s, e, path);
    if Read(src, path).Value? {
      ValuePatched(src, d, s, e, path, value);
    } else {
      HolderStands(src, d, s, e, path);
      EntryPatched(src, d, s, e, path, value);
    }
  }

  lemma ValuePatched(src: string, d: Doc, s: nat, e: nat, path: seq<string>, value: string)
    requires Parse(src) == Ok(d) && Returned(d.lexemes) == Ok((s, e)) && path != [] && Read(src, path).Value?
    ensures s <= e <= |d.lexemes| && Lookup(d.lexemes[s..e], path).Value?
    ensures ValueBytes(src, d, s + Focus(d.lexemes[s..e], path), Read(src, path).tokens, value, ReplaceText(src, d, s, e, path, value))
  {
    hide Parse, Returned, Read, Lookup, Focus, Start, End, ValueText, ValueBytes, Placed;
    ValueInDoc(src, d, s, e, path);
    SpanReplaced(src, d, s + Focus(d.lexemes[s..e], path), Read(src, path).tokens, value);
  }

  lemma SpanReplaced(src: string, d: Doc, i: nat, val: seq<Lexeme>, value: string)
    requires Parse(src) == Ok(d) && Placed(d.lexemes, i, val)
    ensures val != [] && i + |val| <= |d.lexemes| && Start(d.lexemes, i) <= |src| && End(d.lexemes, i + |val| - 1) <= |src|
    ensures ValueBytes(src, d, i, val, value, src[..Start(d.lexemes, i)] + value + src[End(d.lexemes, i + |val| - 1)..])
  {
    hide Parse, Start, End, ValueText, Placed;
    PlacedSlice(d.lexemes, i, val);
    ValueOffsets(src, d, i, |val|);
  }

  lemma EntryPatched(src: string, d: Doc, s: nat, e: nat, path: seq<string>, value: string)
    requires Parse(src) == Ok(d) && Returned(d.lexemes) == Ok((s, e)) && Read(src, path) == Missing
    requires s <= e <= |d.lexemes| && Depth(d.lexemes[s..e], path) < |path| && Holder(d, s, e, path[..Depth(d.lexemes[s..e], path)])
    ensures var arr := d.lexemes[s..e];
      var n := Depth(arr, path);
      EntryBytes(src, d, s + Focus(arr, path[..n]), ParseArray(Lookup(arr, path[..n]).tokens).value, path[n..], value, InsertText(src, d, s, e, path, value))
  {
    hide Parse, Returned, Read, Lookup, Focus, ParseArray, Stands, Depth, EntryBytes, InsertEntry;
    var arr := d.lexemes[s..e];
    var n := Depth(arr, path);
    EntryInserted(src, d, s + Focus(arr, path[..n]), ParseArray(Lookup(arr, path[..n]).tokens).value, path[n..], value);
  }

  lemma PlacedSlice(ls: seq<Lexeme>, i: nat, val: seq<Lexeme>)
    requires Placed(ls, i, val)
    ensures val != [] && i + |val| <= |ls| && ls[i..i + |val|] == val
  {
  }

  lemma EntryInserted(src: string, d: Doc, i: nat, v: ArrayView, path: seq<string>, value: string)
    requires Parse(src) == Ok(d) && Stands(d, i, v) && path != []
    ensures EntryBytes(src, d, i, v, path, value, InsertEntry(src, d, i, v, path, value))
  {
    hide Parse, Start, End, Stands, InsertLine, Unparse, Inserted, AllSpace, EntryText;
    var ls, c, first := d.lexemes, i + |Unparse(v)| - 1, i + |v.head|;
    var out := InsertEntry(src, d, i, v, path, value);
    StandsBounds(src, d, i, v);
    CommaBefore(ls, c);
    var a, opening, close := End(ls, c - 1), Start(ls, first - 1), Start(ls, c);
    var firstKey := if v.parts == [] then None else Some(Start(ls, first));
    var j, text;
    if NeedsComma(v) {
      j, text := LineWithComma(src, a, close, opening, firstKey, path, value);
    } else {
      j, text := LineText1(src, close, opening, firstKey, path, value);
      PlainInserted(src, out, a, j, close, text);
    }
    assert Inserted(src, out, NeedsComma(v), a, j, close, text) && EntryText(GateOf(src, NeedsComma(v), a, opening, firstKey, close, j), text, path, value);
  }

  /** The line goes in behind the comma that was added at e. */
  lemma LineWithComma(src: string, e: nat, close: nat, opening: nat, firstKey: Option<nat>, path: seq<string>, value: string) returns (j: nat, text: string)
    requires e <= close <= |src| && opening <= |src| && (firstKey.Some? ==> firstKey.value <= |src|) && path != []
    ensures Inserted(src, InsertLine(src[..e] + "," + src[e..], close + 1, opening, firstKey, path, value), true, e, j, close, text)
    ensures EntryText(GateOf(src, true, e, opening, firstKey, close, j), text, path, value)
  {
    hide InsertLine, Inserted, AllSpace, EntryText;
    var src1 := src[..e] + "," + src[e..];
    var n;
    n, text := LineText1(src1, close + 1, opening, firstKey, path, value);
    CommaInserted(src, e, n, close, text, InsertLine(src1, close + 1, opening, firstKey, path, value));
    j := n - 1;
  }

  lemma PlainInserted(src: string, out: string, a: nat, j: nat, close: nat, text: string)
    requires j <= close <= |src| && out == src[..j] + text + src[j..] && AllSpace(src[j..close])
    ensures Inserted(src, out, false, a, j, close, text)
  {
  }

  lemma CommaBefore(ls: seq<Lexeme>, c: nat)
    requires 0 < c < |ls|
    ensures End(ls, c - 1) <= Start(ls, c)
  {
    hide Flatten, Pieces;
    FlattenConcat(Pieces(ls[..c]), ls[c].gap);
  }
}
