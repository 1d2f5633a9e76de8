/** Literal PHP arrays as a lens over token lists.

    `ParseArray` reads a token list as a literal array; `Lookup` follows a path of
    keys into nested arrays; `Put` replaces the value a path leads to and `Append`
    adds an entry.  The lemmas are the lens laws: what was put is found, and every
    path that leads elsewhere is undisturbed. */
module PhpArray {
  import opened Text
  import opened PhpLexer
  import S = Sequences
  import opened PhpTokens
  import opened PhpLiterals

  /** `[` or `array(`, the entries, the closing bracket. */
  datatype ArrayView = ArrayView(head: seq<Lexeme>, parts: seq<Part>, close: Lexeme)

  function HeadLength(ls: seq<Lexeme>): (r: Result<nat, PhpError>)
    ensures r.Ok? ==> 0 < r.value <= |ls| && (r.value == 1 || r.value == 2) && IsOpen(ls[r.value - 1].Txt())
  {
    var k := if ls != [] && FoldsTo(ls[0].Txt(), "array") then 1 else 0;
    if k >= |ls| || (ls[k].Txt() != "[" && ls[k].Txt() != "(") || (k == 0 && ls[k].Txt() != "[") then Err(NotLiteralArray)
    else Ok(k + 1)
  }

  function PartKey(p: Part): Result<string, PhpError> {
    if |p.arg| < 3 || p.arg[1].Txt() != "=>" then Err(LiteralKeysRequired)
    else LiteralKey(p.arg[0].token)
  }

  function CheckKeys(parts: seq<Part>, seen: set<string>): Option<PhpError>
    decreases |parts|
  {
    if parts == [] then None
    else
      match PartKey(parts[0])
      case Err(e) => Some(e)
      case Ok(key) => if key in seen then Some(DuplicateKey) else CheckKeys(parts[1..], seen + {key})
  }

  /** parsePHPArray on the tokens from start to end. */
  function ParseArray(ls: seq<Lexeme>): Result<ArrayView, PhpError> {
    match HeadLength(ls)
    case Err(e) => Err(e)
    case Ok(h) =>
      match MatchLength(ls[h - 1..], [])
      case Err(e) => Err(e)
      case Ok(n) =>
        if h - 1 + n != |ls| || n == 1 then Err(ComputedArray)
        else
          match Split(ls[h..|ls| - 1])
          case Err(e) => Err(e)
          case Ok(parts) =>
            match CheckKeys(parts, {})
            case Some(e) => Err(e)
            case None => Ok(ArrayView(ls[..h], parts, ls[|ls| - 1]))
  }

  predicate DistinctKeys(parts: seq<Part>) {
    && (forall i :: 0 <= i < |parts| ==> PartKey(parts[i]).Ok?)
    && (forall i, j :: 0 <= i < j < |parts| ==> PartKey(parts[i]) != PartKey(parts[j]))
  }

  predicate ValidHead(head: seq<Lexeme>, close: Lexeme) {
    && (|head| == 1 || (|head| == 2 && FoldsTo(head[0].Txt(), "array")))
    && (head[|head| - 1].Txt() == "[" || (|head| == 2 && head[1].Txt() == "("))
    && IsClose(close.Txt()) && Opener(close.Txt()) == head[|head| - 1].Txt()
  }

  predicate ValidArray(v: ArrayView) {
    ValidHead(v.head, v.close) && ValidParts(v.parts) && DistinctKeys(v.parts)
  }

  function Unparse(v: ArrayView): seq<Lexeme> { v.head + Flat(v.parts) + [v.close] }

  lemma {:induction false} CheckKeysDistinct(parts: seq<Part>, seen: set<string>)
    ensures CheckKeys(parts, seen).None? <==>
      DistinctKeys(parts) && forall i :: 0 <= i < |parts| ==> PartKey(parts[i]).value !in seen
    decreases |parts|
  {
    if parts != [] && PartKey(parts[0]).Ok? {
      var key := PartKey(parts[0]).value;
      CheckKeysDistinct(parts[1..], seen + {key});
      if CheckKeys(parts, seen).None? {
        forall i, j | 0 <= i < j < |parts|
          ensures PartKey(parts[i]) != PartKey(parts[j])
        {
          assert parts[j] == parts[1..][j - 1];
          if i > 0 { assert parts[i] == parts[1..][i - 1]; }
        }
        assert forall i :: 0 < i < |parts| ==> parts[i] == parts[1..][i - 1];
      } else if DistinctKeys(parts) && key !in seen {
        assert DistinctKeys(parts[1..]);
        assert forall i :: 0 < i < |parts| ==> PartKey(parts[i]) != PartKey(parts[0]);
      }
    }
  }

  /** Parsing finds the array's own structure ... */
  lemma ParseUnparse(ls: seq<Lexeme>)
    requires ParseArray(ls).Ok?
    ensures ValidArray(ParseArray(ls).value) && Unparse(ParseArray(ls).value) == ls
  {
    hide MatchLength, Split, CheckKeys, ValidParts, DistinctKeys, ValidHead, HeadLength;
    var h := HeadLength(ls).value;
    ParsedHead(ls, h);
    var inner := ls[h..|ls| - 1];
    SplitFlat(inner);
    CheckKeysDistinct(Split(inner).value, {});
    S.Framed(ls, h);
  }

  lemma ParsedHead(ls: seq<Lexeme>, h: nat)
    requires HeadLength(ls) == Ok(h) && MatchLength(ls[h - 1..], []) == Ok(|ls| - h + 1) && h < |ls|
    ensures ValidHead(ls[..h], ls[|ls| - 1])
  {
    hide MatchLength, Balanced;
    var g := ls[h - 1..];
    MatchIsGroup(g);
    assert g[..|g|] == g;
    assert ls[..h][h - 1] == ls[h - 1] == g[0] && ls[..h][0] == ls[0] && g[|g| - 1] == ls[|ls| - 1];
  }

  /** The bracketed group of an array. */
  lemma ViewGroup(v: ArrayView)
    requires ValidHead(v.head, v.close) && ValidParts(v.parts)
    ensures var g := [v.head[|v.head| - 1]] + Flat(v.parts) + [v.close];
      IsGroup(g) && MatchLength(g, []) == Ok(|g|)
  {
    hide ValidParts, Balanced, MatchLength, FoldsTo;
    var g := [v.head[|v.head| - 1]] + Flat(v.parts) + [v.close];
    assert g[1..|g| - 1] == Flat(v.parts);
    PartsBalanced(v.parts);
    assert g[0] == v.head[|v.head| - 1] && g[|g| - 1] == v.close;
    GroupMatches(g, []);
    assert g + [] == g;
  }

  /** ... and a well-formed array parses back, as a single neutral expression. */
  lemma UnparseParse(v: ArrayView)
    requires ValidArray(v)
    ensures ParseArray(Unparse(v)) == Ok(v) && Neutral(Unparse(v))
  {
    hide MatchLength, Split, CheckKeys, ValidParts, DistinctKeys, IsGroup, FoldsTo, Neutral, HeadLength, IsClose, Opener, Flat;
    var ls := Unparse(v);
    var h := |v.head|;
    ThreeSlices(v.head, Flat(v.parts), v.close);
    ViewGroup(v);
    assert v.head <= ls;
    HeadIs(ls, v.head, v.close);
    FlatSplit(v.parts);
    CheckKeysDistinct(v.parts, {});
    UnparseNeutral(v);
  }

  lemma ThreeSlices<T>(a: seq<T>, b: seq<T>, c: T)
    requires a != []
    ensures var s := a + b + [c];
      && s[|a| - 1..] == [a[|a| - 1]] + b + [c] && s[..|a|] == a && s[|a|..|s| - 1] == b && s[|s| - 1] == c
  {
  }

  lemma HeadIs(ls: seq<Lexeme>, head: seq<Lexeme>, close: Lexeme)
    requires ValidHead(head, close) && head <= ls
    ensures HeadLength(ls) == Ok(|head|)
  {
  }

  lemma UnparseNeutral(v: ArrayView)
    requires ValidHead(v.head, v.close) && ValidParts(v.parts)
    ensures Neutral(Unparse(v))
  {
    hide ValidParts, MatchLength, IsGroup, ArgLength;
    var h := |v.head|;
    var g := [v.head[h - 1]] + Flat(v.parts) + [v.close];
    ViewGroup(v);
    GroupNeutral(g);
    if h == 2 {
      SingleNeutral(v.head[0]);
      NeutralConcat([v.head[0]], g);
      assert Unparse(v) == [v.head[0]] + g;
    } else {
      assert Unparse(v) == g;
    }
  }

  lemma GroupNeutral(g: seq<Lexeme>)
    requires IsGroup(g)
    ensures Neutral(g)
  {
    hide MatchLength, Balanced;
    GroupMatches(g, []);
    assert g + [] == g && g[|g|..] == [];
    assert ArgLength(g[|g|..]) == Ok(0);
  }

  lemma SingleNeutral(l: Lexeme)
    requires !IsOpen(l.Txt()) && !IsClose(l.Txt()) && !IsComma(l)
    ensures Neutral([l])
  {
  }

  // ----- looking up a path -----

  function FindKey(parts: seq<Part>, key: string): (k: int)
    requires forall i :: 0 <= i < |parts| ==> PartKey(parts[i]).Ok?
    ensures -1 <= k < |parts|
    ensures k >= 0 ==> PartKey(parts[k]) == Ok(key)
    ensures k < 0 ==> forall i :: 0 <= i < |parts| ==> PartKey(parts[i]) != Ok(key)
  {
    if parts == [] then -1
    else if PartKey(parts[0]) == Ok(key) then 0
    else
      var k := FindKey(parts[1..], key);
      if k < 0 then -1 else k + 1
  }

  /** What a path of keys leads to. */
  datatype Target = Value(tokens: seq<Lexeme>) | Missing | NotArray

  function Lookup(ls: seq<Lexeme>, path: seq<string>): Target
    decreases |path|
  {
    if path == [] then Value(ls)
    else
      var r := ParseArray(ls);
      if r.Err? then NotArray
      else
        (assert ValidArray(r.value) by { ParseUnparse(ls); }
        var k := FindKey(r.value.parts, path[0]);
        if k < 0 then Missing else Lookup(r.value.parts[k].arg[2..], path[1..]))
  }

  /** The array ls with the value of part k replaced. */
  function SetPart(v: ArrayView, k: nat, x: seq<Lexeme>): ArrayView
    requires k < |v.parts| && |v.parts[k].arg| >= 2
  {
    v.(parts := v.parts[k := Part(v.parts[k].arg[..2] + x, v.parts[k].comma)])
  }

  /** Replace the value that a path leads to. */
  function Put(ls: seq<Lexeme>, path: seq<string>, x: seq<Lexeme>): seq<Lexeme>
    requires Lookup(ls, path).Value?
    decreases |path|
  {
    if path == [] then x
    else
      assert ValidArray(ParseArray(ls).value) by { ParseUnparse(ls); }
      var v := ParseArray(ls).value;
      var k := FindKey(v.parts, path[0]);
      Unparse(SetPart(v, k, Put(v.parts[k].arg[2..], path[1..], x)))
  }

  lemma SetPartValid(v: ArrayView, k: nat, x: seq<Lexeme>)
    requires ValidArray(v) && k < |v.parts| && x != [] && Neutral(x)
    ensures |v.parts[k].arg| >= 3 && ValidArray(SetPart(v, k, x))
    ensures forall i :: 0 <= i < |v.parts| ==> PartKey(SetPart(v, k, x).parts[i]) == PartKey(v.parts[i])
  {
    hide LiteralKey, ArgLength;
    var arg := v.parts[k].arg;
    assert ValidPart(v.parts[k]) && PartKey(v.parts[k]).Ok?;
    EntryHead(arg);
    NeutralConcat(arg[..2], x);
    var w := SetPart(v, k, x);
    assert (arg[..2] + x)[0] == arg[0] && (arg[..2] + x)[1] == arg[1];
  }

  /** `'key' =>` is neutral on its own, and so is the value after it. */
  lemma EntryHead(arg: seq<Lexeme>)
    requires Neutral(arg) && |arg| >= 3 && arg[1].Txt() == "=>" && LiteralKey(arg[0].token).Ok?
    ensures Neutral(arg[..2]) && Neutral(arg[2..])
  {
    hide LiteralKey;
    assert !IsOpen(arg[0].Txt()) && !IsClose(arg[0].Txt()) && !IsComma(arg[0]) by { KeyIsLong(arg[0].token); }
    assert arg[1..][1..] == arg[2..];
    assert ArgLength(arg[1..]).Ok? && ArgLength(arg[2..]).Ok?;
    var h := arg[..2];
    assert h[1..][1..] == [];
    assert ArgLength(h[1..]) == Ok(1) by { assert ArgLength(h[1..][1..]) == Ok(0); }
  }

  lemma KeyIsLong(p: Piece)
    requires LiteralKey(p).Ok?
    ensures |p.text| >= 2
  {
  }

  lemma FindKeySame(a: seq<Part>, b: seq<Part>, key: string)
    requires |a| == |b| && DistinctKeys(a)
    requires forall i :: 0 <= i < |a| ==> PartKey(b[i]) == PartKey(a[i])
    ensures FindKey(a, key) == FindKey(b, key)
  {
  }

  /** Put keeps the array an array with the same keys, and stays neutral. */
  lemma {:induction false} PutNeutral(ls: seq<Lexeme>, path: seq<string>, x: seq<Lexeme>)
    requires Neutral(ls) && ls != [] && Lookup(ls, path).Value? && Neutral(x) && x != []
    ensures Neutral(Put(ls, path, x)) && Put(ls, path, x) != []
    decreases |path|
  {
    hide LiteralKey, ArgLength, ParseArray, FindKey;
    if path != [] {
      ParseUnparse(ls);
      var v := ParseArray(ls).value;
      var k := FindKey(v.parts, path[0]);
      var arg := v.parts[k].arg;
      assert ValidPart(v.parts[k]);
      EntryHead(arg);
      PutNeutral(arg[2..], path[1..], x);
      SetPartValid(v, k, Put(arg[2..], path[1..], x));
      UnparseParse(SetPart(v, k, Put(arg[2..], path[1..], x)));
    }
  }

  /** What was put is what is found, and below it one finds what lies below x. */
  lemma {:induction false} PutLookup(ls: seq<Lexeme>, path: seq<string>, x: seq<Lexeme>, more: seq<string>)
    requires Neutral(ls) && ls != [] && Lookup(ls, path).Value? && Neutral(x) && x != []
    ensures Lookup(Put(ls, path, x), path + more) == Lookup(x, more)
    decreases |path|
  {
    hide LiteralKey, ArgLength, ParseArray, FindKey;
    if path == [] {
      assert path + more == more;
    } else {
      ParseUnparse(ls);
      var v := ParseArray(ls).value;
      var k := FindKey(v.parts, path[0]);
      var arg := v.parts[k].arg;
      assert ValidPart(v.parts[k]);
      EntryHead(arg);
      var y := Put(arg[2..], path[1..], x);
      PutNeutral(arg[2..], path[1..], x);
      PutLookup(arg[2..], path[1..], x, more);
      SetPartValid(v, k, y);
      var w := SetPart(v, k, y);
      UnparseParse(w);
      FindKeySame(v.parts, w.parts, path[0]);
      assert (path + more)[0] == path[0] && (path + more)[1..] == path[1..] + more;
      assert w.parts[k].arg[2..] == y;
    }
  }

  /** The paths p and q part company at some key. */
  predicate Diverge(p: seq<string>, q: seq<string>) {
    exists i :: 0 <= i < |p| && i < |q| && p[i] != q[i]
  }

  /** Every path that leads elsewhere is undisturbed. */
  lemma {:induction false} PutFrame(ls: seq<Lexeme>, path: seq<string>, x: seq<Lexeme>, q: seq<string>)
    requires Neutral(ls) && ls != [] && Lookup(ls, path).Value? && Neutral(x) && x != []
    requires Diverge(path, q)
    ensures Lookup(Put(ls, path, x), q) == Lookup(ls, q)
    decreases |path|
  {
    hide LiteralKey, ArgLength, ParseArray, FindKey;
    ParseUnparse(ls);
    var v := ParseArray(ls).value;
    var k := FindKey(v.parts, path[0]);
    var arg := v.parts[k].arg;
    assert ValidPart(v.parts[k]);
    EntryHead(arg);
    var y := Put(arg[2..], path[1..], x);
    PutNeutral(arg[2..], path[1..], x);
    SetPartValid(v, k, y);
    var w := SetPart(v, k, y);
    UnparseParse(w);
    FindKeySame(v.parts, w.parts, q[0]);
    var j := FindKey(v.parts, q[0]);
    if q[0] == path[0] {
      var i :| 0 <= i < |path| && i < |q| && path[i] != q[i];
      assert path[1..][i - 1] == path[i] && q[1..][i - 1] == q[i];
      PutFrame(arg[2..], path[1..], x, q[1..]);
      assert w.parts[k].arg[2..] == y;
    } else if j >= 0 {
      assert j != k;
      assert w.parts[j] == v.parts[j];
    }
  }

  // ----- adding an entry -----

  const COMMA := Lexeme([], Piece(Symbol, ","))

  /** The array v with one more entry; an entry without a trailing comma gets one,
      and the closing bracket may move. */
  function Append(v: ArrayView, p: Part, gap: seq<Piece>): ArrayView {
    var n := |v.parts|;
    var entries := if n == 0 then [] else
      v.parts[n - 1 := Part(v.parts[n - 1].arg, if v.parts[n - 1].comma == [] then [COMMA] else v.parts[n - 1].comma)];
    v.(parts := entries + [p], close := Lexeme(gap, v.close.token))
  }

  lemma AppendValid(v: ArrayView, p: Part, gap: seq<Piece>)
    requires ValidArray(v) && ValidPart(p) && PartKey(p).Ok? && FindKey(v.parts, PartKey(p).value) < 0
    ensures ValidArray(Append(v, p, gap))
    ensures forall i :: 0 <= i < |v.parts| ==> Append(v, p, gap).parts[i].arg == v.parts[i].arg
  {
    hide LiteralKey, ArgLength;
    var w := Append(v, p, gap);
    forall i | 0 <= i < |v.parts|
      ensures w.parts[i].arg == v.parts[i].arg && ValidPart(w.parts[i]) && PartKey(w.parts[i]) == PartKey(v.parts[i])
      ensures w.parts[i].comma != []
    {
      assert ValidPart(v.parts[i]);
    }
  }

  /** The appended entry is found and every other key keeps its value. */
  lemma AppendLookup(v: ArrayView, p: Part, gap: seq<Piece>, q: seq<string>)
    requires ValidArray(v) && ValidPart(p) && PartKey(p).Ok? && FindKey(v.parts, PartKey(p).value) < 0
    requires q != []
    ensures Neutral(Unparse(Append(v, p, gap)))
    ensures Lookup(Unparse(Append(v, p, gap)), q) ==
      if q[0] == PartKey(p).value then Lookup(p.arg[2..], q[1..]) else Lookup(Unparse(v), q)
  {
    hide LiteralKey, ArgLength, ParseArray, ValidParts;
    var w := Append(v, p, gap);
    AppendValid(v, p, gap);
    UnparseParse(w);
    UnparseParse(v);
    var i, j := FindKey(w.parts, q[0]), FindKey(v.parts, q[0]);
    assert w.parts[|v.parts|] == p;
    if i >= 0 && i < |v.parts| {
      assert PartKey(v.parts[i]) == Ok(q[0]);
    }
    if j >= 0 {
      assert PartKey(w.parts[j]) == Ok(q[0]);
    }
  }

  // ----- where a value stands -----

  /** The index in ls of the first token of the value that path leads to. */
  function Focus(ls: seq<Lexeme>, path: seq<string>): nat
    requires Lookup(ls, path).Value?
    decreases |path|
  {
    if path == [] then 0
    else
      assert ValidArray(ParseArray(ls).value) by { ParseUnparse(ls); }
      var v := ParseArray(ls).value;
      var k := FindKey(v.parts, path[0]);
      |v.head| + |Flat(v.parts[..k])| + 2 + Focus(v.parts[k].arg[2..], path[1..])
  }

  lemma FlatAt(parts: seq<Part>, k: nat)
    requires k < |parts|
    ensures Flat(parts) == Flat(parts[..k]) + parts[k].arg + (parts[k].comma + Flat(parts[k + 1..]))
  {
    hide Flat;
    var rest := parts[k..];
    assert rest[0] == parts[k] && rest[1..] == parts[k + 1..];
    assert parts == parts[..k] + rest;
    FlatConcat(parts[..k], rest);
    FlatOne(rest);
    S.Assoc(Flat(parts[..k]), parts[k].arg, parts[k].comma + Flat(parts[k + 1..]));
  }

  lemma FlatOne(parts: seq<Part>)
    requires parts != []
    ensures Flat(parts) == parts[0].arg + (parts[0].comma + Flat(parts[1..]))
  {
  }

  /** Part k of an array, in place. */
  lemma PartInPlace(v: ArrayView, k: nat, x: seq<Lexeme>)
    requires k < |v.parts| && |v.parts[k].arg| >= 2
    ensures var ls, arg := Unparse(v), v.parts[k].arg;
      var i := |v.head| + |Flat(v.parts[..k])| + 2;
      && i + |arg| - 2 <= |ls| && ls[i..i + |arg| - 2] == arg[2..]
      && Unparse(SetPart(v, k, x)) == ls[..i] + x + ls[i + |arg| - 2..]
  {
    hide Flat;
    var p, w := v.parts[k], SetPart(v, k, x);
    FlatAt(v.parts, k);
    FlatAt(w.parts, k);
    assert w.parts[..k] == v.parts[..k] && w.parts[k + 1..] == v.parts[k + 1..];
    var pre, post := v.head + Flat(v.parts[..k]) + p.arg[..2], p.comma + Flat(v.parts[k + 1..]) + [v.close];
    assert p.arg == p.arg[..2] + p.arg[2..];
    assert Unparse(v) == pre + p.arg[2..] + post;
    assert Unparse(w) == pre + x + post;
  }

  /** Put is a splice at the focus. */
  lemma {:induction false} PutSplice(ls: seq<Lexeme>, path: seq<string>, x: seq<Lexeme>)
    requires Lookup(ls, path).Value?
    ensures var i, val := Focus(ls, path), Lookup(ls, path).tokens;
      && i + |val| <= |ls| && ls[i..i + |val|] == val
      && Put(ls, path, x) == ls[..i] + x + ls[i + |val|..]
    decreases |path|
  {
    hide LiteralKey, ArgLength, ParseArray, FindKey, Flat, Unparse, SetPart, ValidHead, ValidParts;
    if path == [] {
      assert ls[0..0 + |ls|] == ls;
      assert ls[..0] + x + ls[|ls|..] == x;
    } else {
      ParseUnparse(ls);
      var v := ParseArray(ls).value;
      var k := FindKey(v.parts, path[0]);
      var sub := v.parts[k].arg[2..];
      PutSplice(sub, path[1..], x);
      SpliceStep(ls, v, k, Focus(sub, path[1..]), |Lookup(sub, path[1..]).tokens|, Put(sub, path[1..], x), x);
    }
  }

  lemma SpliceStep(ls: seq<Lexeme>, v: ArrayView, k: nat, j: nat, m: nat, y: seq<Lexeme>, x: seq<Lexeme>)
    requires ls == Unparse(v) && k < |v.parts| && |v.parts[k].arg| >= 2
    requires var sub := v.parts[k].arg[2..]; j + m <= |sub| && y == sub[..j] + x + sub[j + m..]
    ensures var sub := v.parts[k].arg[2..];
      var i := |v.head| + |Flat(v.parts[..k])| + 2 + j;
      && i + m <= |ls| && ls[i..i + m] == sub[j..j + m]
      && Unparse(SetPart(v, k, y)) == ls[..i] + x + ls[i + m..]
  {
    hide Flat, Unparse, SetPart;
    PartInPlace(v, k, y);
    SpliceWithin(ls, v.parts[k].arg[2..], |v.head| + |Flat(v.parts[..k])| + 2, j, m, x);
  }

  /** A splice inside a slice is a splice of the whole. */
  lemma SpliceWithin<T>(s: seq<T>, sub: seq<T>, i: nat, j: nat, m: nat, x: seq<T>)
    requires i + |sub| <= |s| && s[i..i + |sub|] == sub && j + m <= |sub|
    ensures s[i + j..i + j + m] == sub[j..j + m]
    ensures s[..i] + (sub[..j] + x + sub[j + m..]) + s[i + |sub|..] == s[..i + j] + x + s[i + j + m..]
  {
    var pre, post := s[..i], s[i + |sub|..];
    assert s == pre + sub + post;
    assert s[..i + j] == pre + sub[..j];
    assert s[i + j + m..] == sub[j + m..] + post;
  }

  // ----- the returned array -----

  predicate IsReturn(ls: seq<Lexeme>, i: nat)
    requires i < |ls|
  {
    FoldsTo(ls[i].Txt(), "return") && !(i > 0 && (ls[i - 1].Txt() == "$" || ls[i - 1].Txt() == "->" || ls[i - 1].Txt() == "::"))
  }

  /** The next `return` outside all brackets at or after i. */
  function NextReturn(ls: seq<Lexeme>, i: nat): (r: Result<nat, PhpError>)
    requires i <= |ls|
    ensures r.Ok? ==> i <= r.value <= |ls|
    decreases |ls| - i
  {
    if i == |ls| then Ok(i)
    else if IsOpen(ls[i].Txt()) then
      match MatchLength(ls[i..], [])
      case Err(e) => Err(e)
      case Ok(n) => NextReturn(ls, i + n)
    else if IsReturn(ls, i) then Ok(i)
    else NextReturn(ls, i + 1)
  }

  /** The end of the literal array that a `return` right before s returns. */
  function ArrayEnd(ls: seq<Lexeme>, s: nat): (r: Result<nat, PhpError>)
    requires s <= |ls|
    ensures r.Ok? ==> s <= r.value < |ls|
  {
    var k := if s < |ls| && FoldsTo(ls[s].Txt(), "array") then s + 1 else s;
    if k >= |ls| || (ls[k].Txt() != "[" && ls[k].Txt() != "(") then Err(NoReturnedArray)
    else
      match MatchLength(ls[k..], [])
      case Err(e) => Err(e)
      case Ok(n) => if k + n >= |ls| || ls[k + n].Txt() != ";" then Err(ComputedReturn) else Ok(k + n)
  }

  /** phpReturnedArray: the token range of the one literal array returned at the
      top level. */
  function Returned(ls: seq<Lexeme>): Result<(nat, nat), PhpError> {
    match NextReturn(ls, 0)
    case Err(e) => Err(e)
    case Ok(r) =>
      if r == |ls| then Err(NoReturnedArray)
      else
        match ArrayEnd(ls, r + 1)
        case Err(e) => Err(e)
        case Ok(end) =>
          match ParseArray(ls[r + 1..end])
          case Err(e) => Err(e)
          case Ok(_) =>
            match NextReturn(ls, end + 1)
            case Err(e) => Err(e)
            case Ok(r2) => if r2 < |ls| then Err(MultipleReturns) else Ok((r + 1, end))
  }

  lemma {:induction false} NextReturnPrefix(a: seq<Lexeme>, x: seq<Lexeme>, y: seq<Lexeme>, i: nat)
    requires i < |a| && NextReturn(a + x, i) == Ok(|a| - 1)
    ensures NextReturn(a + y, i) == Ok(|a| - 1)
    decreases |a| - i
  {
    hide MatchLength, IsGroup, FoldsTo;
    assert (a + x)[i] == a[i] == (a + y)[i];
    assert i > 0 ==> (a + x)[i - 1] == (a + y)[i - 1];
    if IsOpen(a[i].Txt()) {
      var n := MatchLength((a + x)[i..], []).value;
      assert i + n <= |a| - 1;
      var g := (a + x)[i..][..n];
      assert g == a[i..i + n];
      MatchIsGroup((a + x)[i..]);
      assert (a + y)[i..] == g + (a[i + n..] + y);
      GroupMatches(g, a[i + n..] + y);
      NextReturnPrefix(a, x, y, i + n);
    } else if !IsReturn(a + x, i) {
      NextReturnPrefix(a, x, y, i + 1);
    }
  }

  lemma SameReturn(p: seq<Lexeme>, q: seq<Lexeme>, t: seq<Lexeme>, k: nat)
    requires 1 <= k < |t|
    ensures IsReturn(p + t, |p| + k) <==> IsReturn(q + t, |q| + k)
  {
  }

  lemma {:induction false} NextReturnSuffix(p: seq<Lexeme>, q: seq<Lexeme>, t: seq<Lexeme>, k: nat)
    requires 1 <= k <= |t| && NextReturn(p + t, |p| + k).Ok?
    ensures NextReturn(q + t, |q| + k) == Ok(NextReturn(p + t, |p| + k).value - |p| + |q|)
    decreases |t| - k
  {
    hide MatchLength, FoldsTo, IsReturn;
    if k < |t| {
      SameReturn(p, q, t, k);
      assert (p + t)[|p| + k] == t[k] == (q + t)[|q| + k];
      assert (p + t)[|p| + k..] == t[k..] == (q + t)[|q| + k..];
      if IsOpen(t[k].Txt()) {
        NextReturnSuffix(p, q, t, k + MatchLength(t[k..], []).value);
      } else if !IsReturn(p + t, |p| + k) {
        NextReturnSuffix(p, q, t, k + 1);
      }
    }
  }

  /** The returned array may be exchanged for another literal array. */
  lemma ReturnedSplice(ls: seq<Lexeme>, arr: seq<Lexeme>)
    requires Returned(ls).Ok? && ParseArray(arr).Ok?
    ensures var (s, e) := Returned(ls).value;
      && s <= e < |ls| && ParseArray(ls[s..e]).Ok?
      && Returned(ls[..s] + arr + ls[e..]) == Ok((s, s + |arr|))
  {
    hide MatchLength, FoldsTo, NextReturn, ParseArray, ArrayEnd;
    var (s, e) := Returned(ls).value;
    ArrayEndStops(ls, s);
    ReturnedSpliced(ls, s, e, arr);
  }

  lemma ArrayEndStops(ls: seq<Lexeme>, s: nat)
    requires s <= |ls| && ArrayEnd(ls, s).Ok?
    ensures ls[ArrayEnd(ls, s).value].Txt() == ";"
  {
  }

  lemma ReturnedSpliced(ls: seq<Lexeme>, s: nat, e: nat, arr: seq<Lexeme>)
    requires 0 < s <= e < |ls| && NextReturn(ls, 0) == Ok(s - 1) && NextReturn(ls, e + 1) == Ok(|ls|)
    requires ls[e].Txt() == ";" && ParseArray(arr).Ok?
    ensures Returned(ls[..s] + arr + ls[e..]) == Ok((s, s + |arr|))
  {
    hide MatchLength, FoldsTo, NextReturn, ParseArray, ArrayEnd, Returned;
    SplicedBefore(ls, s, arr, ls[e..]);
    SplicedAfter(ls, e, ls[..s] + arr);
    S.Middle(ls[..s], arr, ls[e..]);
    ReturnedIs(ls[..s] + arr + ls[e..], s, arr, ls[e..]);
  }

  lemma SplicedBefore(ls: seq<Lexeme>, s: nat, arr: seq<Lexeme>, b: seq<Lexeme>)
    requires 0 < s <= |ls| && NextReturn(ls, 0) == Ok(s - 1)
    ensures NextReturn(ls[..s] + arr + b, 0) == Ok(s - 1)
  {
    hide MatchLength, FoldsTo, NextReturn;
    S.CutHere(ls, s);
    S.Assoc(ls[..s], arr, b);
    NextReturnPrefix(ls[..s], ls[s..], arr + b, 0);
  }

  lemma SplicedAfter(ls: seq<Lexeme>, e: nat, q: seq<Lexeme>)
    requires e < |ls| && NextReturn(ls, e + 1) == Ok(|ls|)
    ensures NextReturn(q + ls[e..], |q| + 1) == Ok(|q + ls[e..]|)
  {
    hide MatchLength, FoldsTo, NextReturn;
    S.CutHere(ls, e);
    NextReturnSuffix(ls[..e], q, ls[e..], 1);
  }

  lemma ReturnedFits(t: seq<Lexeme>, s: nat, e: nat)
    requires 0 < s <= e < |t| && NextReturn(t, 0) == Ok(s - 1) && ArrayEnd(t, s) == Ok(e)
    requires ParseArray(t[s..e]).Ok? && NextReturn(t, e + 1) == Ok(|t|)
    ensures Returned(t) == Ok((s, e))
  {
    hide MatchLength, FoldsTo, NextReturn, ParseArray, ArrayEnd;
  }

  /** From s on the tokens are a and then b. */
  ghost predicate Follow<T>(t: seq<T>, s: nat, a: seq<T>, b: seq<T>) { s <= |t| && t[s..] == a + b }

  lemma FollowSlice(t: seq<Lexeme>, s: nat, arr: seq<Lexeme>, rest: seq<Lexeme>)
    requires Follow(t, s, arr, rest) && ParseArray(arr).Ok? && rest != [] && rest[0].Txt() == ";"
    ensures s + |arr| < |t| && ArrayEnd(t, s) == Ok(s + |arr|) && ParseArray(t[s..s + |arr|]).Ok?
  {
    hide MatchLength, FoldsTo, ParseArray, ArrayEnd;
    ArrayEndIs(t, s, arr, rest);
    SliceSlice(t, s, arr, rest, 0);
  }

  lemma ReturnedIs(t: seq<Lexeme>, s: nat, arr: seq<Lexeme>, rest: seq<Lexeme>)
    requires 0 < s <= |t| && Follow(t, s, arr, rest) && ParseArray(arr).Ok?
    requires NextReturn(t, 0) == Ok(s - 1)
    requires rest != [] && rest[0].Txt() == ";"
    requires NextReturn(t, s + |arr| + 1) == Ok(|t|)
    ensures Returned(t) == Ok((s, s + |arr|))
  {
    hide MatchLength, FoldsTo, NextReturn, ParseArray, ArrayEnd, Returned, Follow;
    FollowSlice(t, s, arr, rest);
    ReturnedFits(t, s, s + |arr|);
  }

  lemma ArrayEndIs(t: seq<Lexeme>, s: nat, arr: seq<Lexeme>, rest: seq<Lexeme>)
    requires s <= |t| && t[s..] == arr + rest && ParseArray(arr).Ok?
    requires rest != [] && rest[0].Txt() == ";"
    ensures ArrayEnd(t, s) == Ok(s + |arr|)
  {
    hide MatchLength, FoldsTo, ParseArray;
    ArrayGroup(arr, rest);
    var h := if FoldsTo(arr[0].Txt(), "array") then 2 else 1;
    assert t[s] == t[s..][0] && t[s + h - 1] == t[s..][h - 1] && t[s + |arr|] == t[s..][|arr|];
    SliceSlice(t, s, arr, rest, h - 1);
  }

  lemma SliceSlice<T>(t: seq<T>, s: nat, a: seq<T>, b: seq<T>, k: nat)
    requires s <= |t| && t[s..] == a + b && k <= |a|
    ensures t[s + k..] == a[k..] + b
    ensures t[s..s + |a|] == a
  {
  }

  /** The first tokens of a literal array, and the group they open. */
  lemma ArrayGroup(arr: seq<Lexeme>, rest: seq<Lexeme>)
    requires ParseArray(arr).Ok?
    ensures arr != []
    ensures var h := if FoldsTo(arr[0].Txt(), "array") then 2 else 1;
      && h <= |arr| && (arr[h - 1].Txt() == "[" || arr[h - 1].Txt() == "(")
      && MatchLength(arr[h - 1..] + rest, []) == Ok(|arr| - h + 1)
  {
    hide MatchLength, Flat, ParseArray, ValidParts, DistinctKeys, Balanced, IsGroup, FoldsTo, ValidHead;
    ParseUnparse(arr);
    var v := ParseArray(arr).value;
    HeadWord(v.head, v.close);
    ThreeSlices(v.head, Flat(v.parts), v.close);
    var h := |v.head|;
    assert arr[..h][0] == arr[0] && arr[..h][h - 1] == arr[h - 1];
    ViewGroup(v);
    GroupMatches(arr[h - 1..], rest);
  }

  lemma HeadWord(head: seq<Lexeme>, close: Lexeme)
    requires ValidHead(head, close)
    ensures head != []
    ensures |head| == if FoldsTo(head[0].Txt(), "array") then 2 else 1
    ensures head[|head| - 1].Txt() == "[" || head[|head| - 1].Txt() == "("
  {
  }
}
