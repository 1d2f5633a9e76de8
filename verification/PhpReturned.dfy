/** Which array a source returns, told by its tokens alone: the words are spelled out
    and "outside all brackets" is that the tokens before are balanced. */
module PhpReturned {
  import opened Text
  import opened PhpLexer
  import opened PhpTokens
  import opened PhpLiterals
  import opened PhpArray
  import L = PhpArrayLens

  // ----- returns outside all brackets -----

  /** Token i is a `return` outside all brackets that is not the name of a variable or
      a member. */
  predicate TopReturn(ls: seq<Lexeme>, i: nat) {
    && i < |ls| && Balanced(ls[..i]) && AnyCase(ls[i].Txt(), "return", "RETURN")
    && (i == 0 || (ls[i - 1].Txt() != "$" && ls[i - 1].Txt() != "->" && ls[i - 1].Txt() != "::"))
  }

  /** Inside a bracketed group the tokens before are not balanced. */
  lemma GroupInside(a: seq<Lexeme>, g: seq<Lexeme>, m: nat)
    requires IsGroup(g) && Balanced(a) && 0 < m < |g|
    ensures !Balanced(a + g[..m])
  {
    hide Run;
    var inner := g[1..|g| - 1];
    InnerRuns(inner, m - 1);
    OpenRuns(g[0], inner[..m - 1]);
    assert g[..m] == [g[0]] + inner[..m - 1];
    BalancedConcat(a, g[..m]);
  }

  lemma InnerRuns(inner: seq<Lexeme>, m: nat)
    requires Balanced(inner) && m <= |inner|
    ensures Run([], inner[..m]).Some?
  {
    assert inner == inner[..m] + inner[m..];
    RunConcat([], inner[..m], inner[m..]);
  }

  lemma OpenRuns(open: Lexeme, ls: seq<Lexeme>)
    requires IsOpen(open.Txt()) && Run([], ls).Some?
    ensures !Balanced([open] + ls)
  {
    var o := open.Txt();
    RunAbove([o], [], ls);
    assert [o] + [] == [o] && [] + [o] == [o];
    assert ([open] + ls)[1..] == ls;
  }

  /** Behind balanced tokens a group is skipped as a whole. */
  lemma GroupSkipped(ls: seq<Lexeme>, i: nat, e: nat)
    requires i <= e <= |ls| && Balanced(ls[..i]) && IsGroup(ls[i..e])
    ensures Balanced(ls[..e]) && forall j :: i < j < e ==> !Balanced(ls[..j])
  {
    hide Balanced, IsGroup;
    var g := ls[i..e];
    GroupBalanced(g);
    BalancedConcat(ls[..i], g);
    assert ls[..e] == ls[..i] + g;
    forall j | i < j < e
      ensures !Balanced(ls[..j])
    {
      assert ls[..j] == ls[..i] + g[..j - i];
      GroupLength(g);
      GroupInside(ls[..i], g, j - i);
    }
  }

  lemma GroupLength(g: seq<Lexeme>)
    requires IsGroup(g)
    ensures |g| >= 2 && IsOpen(g[0].Txt())
  {
  }

  lemma TokenSkipped(ls: seq<Lexeme>, i: nat)
    requires i < |ls| && Balanced(ls[..i]) && !IsOpen(ls[i].Txt()) && !IsClose(ls[i].Txt())
    ensures Balanced(ls[..i + 1])
  {
    hide Balanced;
    NeutralOne(ls[i]);
    BalancedConcat(ls[..i], [ls[i]]);
    assert ls[..i + 1] == ls[..i] + [ls[i]];
  }

  /** A group in ls that starts outside all brackets. */
  lemma GroupHere(ls: seq<Lexeme>, i: nat)
    requires Balanced(ls) && i < |ls| && Balanced(ls[..i]) && IsOpen(ls[i].Txt())
    ensures MatchLength(ls[i..], []).Ok?
    ensures var n := MatchLength(ls[i..], []).value;
      && i + n <= |ls| && Balanced(ls[..i + n]) && forall j :: i < j < i + n ==> !Balanced(ls[..j])
  {
    hide MatchLength, Balanced, IsGroup;
    assert ls == ls[..i] + ls[i..];
    BalancedConcat(ls[..i], ls[i..]);
    CheckIsBalanced(ls[i..]);
    var n := MatchLength(ls[i..], []).value;
    MatchIsGroup(ls[i..]);
    assert ls[i..i + n] == ls[i..][..n];
    GroupSkipped(ls, i, i + n);
  }

  /** A token that is no bracket. */
  lemma TokenHere(ls: seq<Lexeme>, i: nat)
    requires Balanced(ls) && i < |ls| && Balanced(ls[..i]) && !IsOpen(ls[i].Txt())
    ensures !IsClose(ls[i].Txt()) && Balanced(ls[..i + 1])
  {
    assert ls == ls[..i] + ls[i..];
    BalancedConcat(ls[..i], ls[i..]);
    assert !IsClose(ls[i].Txt());
    TokenSkipped(ls, i);
  }

  /** The search finds the first `return` outside all brackets. */
  lemma {:induction false} NextIs(ls: seq<Lexeme>, i: nat)
    requires Balanced(ls) && i <= |ls| && Balanced(ls[..i])
    ensures NextReturn(ls, i).Ok?
    ensures var r := NextReturn(ls, i).value;
      && Balanced(ls[..r]) && (r < |ls| ==> TopReturn(ls, r)) && forall j :: i <= j < r ==> !TopReturn(ls, j)
    decreases |ls| - i
  {
    hide MatchLength, Balanced, TopReturn, IsReturn;
    if i < |ls| {
      ReturnHere(ls, i);
      if IsOpen(ls[i].Txt()) {
        GroupHere(ls, i);
        var n := MatchLength(ls[i..], []).value;
        forall j | i < j < i + n
          ensures !TopReturn(ls, j)
        {
          ReturnHere(ls, j);
        }
        NextIs(ls, i + n);
      } else if !IsReturn(ls, i) {
        TokenHere(ls, i);
        NextIs(ls, i + 1);
      }
    }
  }

  // ----- the array behind the return -----

  /** The group of a literal array. */
  lemma ArrayBrackets(arr: seq<Lexeme>)
    requires ParseArray(arr).Ok?
    ensures arr != [] && (IsGroup(arr) || (|arr| > 1 && FoldsTo(arr[0].Txt(), "array") && IsGroup(arr[1..])))
  {
    hide MatchLength, Balanced, IsGroup, ParseArray, FoldsTo;
    ArrayGroup(arr, []);
    var h := if FoldsTo(arr[0].Txt(), "array") then 2 else 1;
    var g := arr[h - 1..];
    assert g + [] == g;
    MatchIsGroup(g);
    assert g[..|g|] == g;
    assert h == 1 ==> g == arr;
  }

  /** Inside a literal array and its semicolon no `return` is outside all brackets. */
  lemma ArrayInside(ls: seq<Lexeme>, s: nat, e: nat)
    requires s <= e < |ls| && Balanced(ls[..s]) && ParseArray(ls[s..e]).Ok? && ls[e].Txt() == ";"
    ensures Balanced(ls[..e + 1]) && forall j :: s <= j <= e ==> !TopReturn(ls, j)
  {
    hide MatchLength, Balanced, IsGroup, ParseArray, FoldsTo, AnyCase;
    var arr := ls[s..e];
    ArrayBrackets(arr);
    var i := if IsGroup(arr) then s else s + 1;
    if i > s {
      NotReturn(ls[s].Txt());
      TokenSkipped(ls, s);
    }
    assert ls[i..e] == arr[i - s..];
    assert arr[0..] == arr;
    GroupSkipped(ls, i, e);
    GroupLength(ls[i..e]);
    NotReturn(ls[i].Txt());
    NotReturn(ls[e].Txt());
    TokenSkipped(ls, e);
  }

  /** Outside all brackets the test on a token is the spelled-out one. */
  lemma ReturnHere(ls: seq<Lexeme>, i: nat)
    requires i < |ls|
    ensures Balanced(ls[..i]) ==> (IsReturn(ls, i) <==> TopReturn(ls, i))
    ensures !Balanced(ls[..i]) || IsOpen(ls[i].Txt()) ==> !TopReturn(ls, i)
  {
    hide Balanced, FoldsTo, AnyCase;
    FoldsSpelled(ls[i].Txt(), "return", "RETURN");
    NotReturn(ls[i].Txt());
  }

  lemma NotReturn(t: string)
    ensures FoldsTo(t, "array") || t == ";" || IsOpen(t) ==> !AnyCase(t, "return", "RETURN")
    ensures FoldsTo(t, "array") || t == ";" ==> !IsOpen(t) && !IsClose(t)
  {
  }

  /** There is one `return` outside all brackets, right before s, and behind it stand
      a literal array, up to e, and a semicolon. */
  ghost predicate ReturnsArray(ls: seq<Lexeme>, s: nat, e: nat) {
    && 0 < s <= e < |ls| && TopReturn(ls, s - 1) && (forall i :: TopReturn(ls, i) ==> i == s - 1)
    && ParseArray(ls[s..e]).Ok? && ls[e].Txt() == ";"
  }

  /** A source with balanced brackets returns exactly that array. */
  lemma ReturnedExactly(ls: seq<Lexeme>, s: nat, e: nat)
    requires Balanced(ls)
    ensures Returned(ls) == Ok((s, e)) <==> ReturnsArray(ls, s, e)
  {
    hide MatchLength, Balanced, NextReturn, ArrayEnd, ParseArray, AnyCase;
    assert ls[..0] == [];
    EmptyBalanced();
    NextIs(ls, 0);
    if Returned(ls) == Ok((s, e)) {
      ArrayEndStops(ls, s);
      AfterReturn(ls, s);
      ArrayInside(ls, s, e);
      NextIs(ls, e + 1);
    }
    if ReturnsArray(ls, s, e) {
      AfterReturn(ls, s);
      ArrayInside(ls, s, e);
      NextIs(ls, e + 1);
      assert ls[s..] == ls[s..e] + ls[e..];
      FollowSlice(ls, s, ls[s..e], ls[e..]);
      ReturnedFits(ls, s, e);
    }
  }

  lemma EmptyBalanced()
    ensures Balanced([])
  {
  }

  lemma AfterReturn(ls: seq<Lexeme>, s: nat)
    requires 0 < s <= |ls| && TopReturn(ls, s - 1)
    ensures Balanced(ls[..s])
  {
    hide Balanced;
    TokenSkipped(ls, s - 1);
  }

  /** Every scanned source is decided so. */
  lemma ReturnedDecides(ls: seq<Lexeme>)
    requires Balanced(ls)
    ensures Returned(ls).Ok? ==> ReturnsArray(ls, Returned(ls).value.0, Returned(ls).value.1)
    ensures Returned(ls).Err? ==> forall s: nat, e: nat :: !ReturnsArray(ls, s, e)
  {
    hide Balanced, Returned, ReturnsArray;
    if Returned(ls).Ok? { ReturnedExactly(ls, Returned(ls).value.0, Returned(ls).value.1); }
    forall s: nat, e: nat | ReturnsArray(ls, s, e)
      ensures Returned(ls).Ok?
    {
      ReturnedExactly(ls, s, e);
    }
  }

  /** Without such a `return` there is no array ... */
  lemma NoneReturned(ls: seq<Lexeme>)
    requires Balanced(ls) && forall i :: !TopReturn(ls, i)
    ensures Returned(ls) == Err(NoReturnedArray)
  {
    hide MatchLength, Balanced, NextReturn, TopReturn;
    assert ls[..0] == [];
    EmptyBalanced();
    NextIs(ls, 0);
  }

  /** ... and with another one behind the first array there are too many. */
  lemma ManyReturned(ls: seq<Lexeme>, s: nat, e: nat, i: nat)
    requires Balanced(ls) && 0 < s <= e < |ls| && TopReturn(ls, s - 1) && ParseArray(ls[s..e]).Ok? && ls[e].Txt() == ";"
    requires TopReturn(ls, i) && s <= i && forall j :: TopReturn(ls, j) ==> s - 1 <= j
    ensures Returned(ls) == Err(MultipleReturns)
  {
    hide MatchLength, Balanced, NextReturn, ArrayEnd, ParseArray, AnyCase;
    assert ls[..0] == [];
    EmptyBalanced();
    NextIs(ls, 0);
    AfterReturn(ls, s);
    ArrayInside(ls, s, e);
    NextIs(ls, e + 1);
    assert ls[s..] == ls[s..e] + ls[e..];
    FollowSlice(ls, s, ls[s..e], ls[e..]);
  }

  // ----- literal arrays -----

  /** Balanced tokens without a comma outside all brackets. */
  predicate OneExpression(ls: seq<Lexeme>) {
    Balanced(ls) && forall i :: 0 <= i < |ls| && Balanced(ls[..i]) ==> ls[i].Txt() != ","
  }

  lemma {:induction false} ExpressionIs(ls: seq<Lexeme>)
    ensures Neutral(ls) <==> OneExpression(ls)
    decreases |ls|
  {
    hide MatchLength, Balanced, ArgLength, IsGroup, AtomLength, OneExpression;
    assert ls != [] ==> ls[..0] == [];
    EmptyBalanced();
    if ls == [] || IsComma(ls[0]) {
      NoArg(ls);
      NoExpression(ls);
    } else {
      AtomCases(ls);
      if AtomLength(ls).Ok? {
        var n := AtomLength(ls).value;
        ArgSkips(ls, n);
        if IsOpen(ls[0].Txt()) {
          MatchIsGroup(ls);
          assert ls[0..n] == ls[..n];
          GroupSkipped(ls, 0, n);
        } else {
          TokenSkipped(ls, 0);
        }
        ExpressionRest(ls, n);
        ExpressionIs(ls[n..]);
      } else {
        if Neutral(ls) { ArgStarts(ls); }
        NoExpression(ls);
      }
    }
  }

  lemma NoExpression(ls: seq<Lexeme>)
    ensures ls == [] ==> OneExpression(ls)
    ensures ls != [] && IsComma(ls[0]) ==> !OneExpression(ls)
    ensures !Balanced(ls) ==> !OneExpression(ls)
  {
    assert ls != [] ==> ls[..0] == [];
  }

  /** What stands at the head of balanced tokens. */
  lemma AtomCases(ls: seq<Lexeme>)
    requires ls != []
    ensures AtomLength(ls).Err? ==> !Balanced(ls)
    ensures AtomLength(ls).Ok? ==>
      if IsOpen(ls[0].Txt()) then MatchLength(ls, []) == AtomLength(ls) else !IsClose(ls[0].Txt()) && AtomLength(ls) == Ok(1)
  {
    hide MatchLength, Balanced;
    CheckIsBalanced(ls);
  }

  lemma ExpressionRest(ls: seq<Lexeme>, n: nat)
    requires 0 < n <= |ls| && Balanced(ls[..n]) && !IsComma(ls[0]) && forall j :: 0 < j < n ==> !Balanced(ls[..j])
    ensures OneExpression(ls) <==> OneExpression(ls[n..])
  {
    hide Balanced;
    var rest := ls[n..];
    assert ls == ls[..n] + rest;
    BalancedConcat(ls[..n], rest);
    forall j | 0 <= j <= |rest|
      ensures Balanced(rest[..j]) <==> Balanced(ls[..n + j])
    {
      assert ls[..n + j] == ls[..n] + rest[..j];
      BalancedConcat(ls[..n], rest[..j]);
    }
    if OneExpression(rest) {
      forall i | 0 <= i < |ls| && Balanced(ls[..i])
        ensures ls[i].Txt() != ","
      {
        if i >= n { assert ls[..i] == ls[..n + (i - n)] && rest[i - n] == ls[i]; }
      }
    }
    if OneExpression(ls) {
      forall i | 0 <= i < |rest| && Balanced(rest[..i])
        ensures rest[i].Txt() != ","
      {
        assert ls[n + i] == rest[i];
      }
    }
  }

  /** The words and brackets of a literal array. */
  predicate ArrayBracketed(head: seq<Lexeme>, close: Lexeme) {
    || (|head| == 1 && head[0].Txt() == "[" && close.Txt() == "]")
    || (|head| == 2 && AnyCase(head[0].Txt(), "array", "ARRAY") && head[1].Txt() == "(" && close.Txt() == ")")
    || (|head| == 2 && AnyCase(head[0].Txt(), "array", "ARRAY") && head[1].Txt() == "[" && close.Txt() == "]")
  }

  /** An entry: a literal string key, `=>`, and one expression. */
  predicate IsEntry(p: Part) {
    |p.arg| >= 3 && LiteralKey(p.arg[0].token).Ok? && p.arg[1].Txt() == "=>" && OneExpression(p.arg)
  }

  /** The tokens of a literal array: brackets, entries with one comma between each two
      and perhaps one behind the last, and no key twice. */
  ghost predicate LiteralArray(ls: seq<Lexeme>, v: ArrayView) {
    && ls == Unparse(v) && ArrayBracketed(v.head, v.close)
    && (forall i :: 0 <= i < |v.parts| ==> IsEntry(v.parts[i]))
    && (forall i :: 0 <= i < |v.parts| ==> (|v.parts[i].comma| == 1 && v.parts[i].comma[0].Txt() == ",") || (i == |v.parts| - 1 && v.parts[i].comma == []))
    && (forall i, j :: 0 <= i < j < |v.parts| ==> LiteralKey(v.parts[i].arg[0].token) != LiteralKey(v.parts[j].arg[0].token))
  }

  /** Exactly these are parsed. */
  lemma ParsesExactly(ls: seq<Lexeme>, v: ArrayView)
    ensures ParseArray(ls) == Ok(v) <==> LiteralArray(ls, v)
  {
    hide ParseArray, Unparse, OneExpression, LiteralKey, FoldsTo, AnyCase, Neutral;
    if ParseArray(ls) == Ok(v) { ParseUnparse(ls); }
    forall i | 0 <= i < |v.parts|
      ensures ValidPart(v.parts[i]) && PartKey(v.parts[i]).Ok? <==> IsEntry(v.parts[i]) && |v.parts[i].comma| <= 1 && (v.parts[i].comma != [] ==> v.parts[i].comma[0].Txt() == ",")
    {
      EntryIs(v.parts[i]);
    }
    BracketedIs(v.head, v.close);
    if LiteralArray(ls, v) {
      assert ValidArray(v);
      UnparseParse(v);
    }
  }

  lemma EntryIs(p: Part)
    ensures ValidPart(p) && PartKey(p).Ok? <==> IsEntry(p) && |p.comma| <= 1 && (p.comma != [] ==> p.comma[0].Txt() == ",")
  {
    hide LiteralKey, Neutral, OneExpression;
    ExpressionIs(p.arg);
  }

  lemma BracketedIs(head: seq<Lexeme>, close: Lexeme)
    ensures ValidHead(head, close) <==> ArrayBracketed(head, close)
  {
    hide FoldsTo, AnyCase;
    if head != [] { FoldsSpelled(head[0].Txt(), "array", "ARRAY"); }
  }

  /** A path goes through the entries of the keys that it names. */
  lemma LookupEntry(ls: seq<Lexeme>, v: ArrayView, key: string, rest: seq<string>)
    requires LiteralArray(ls, v)
    ensures forall i :: 0 <= i < |v.parts| && LiteralKey(v.parts[i].arg[0].token) == Ok(key) ==> Lookup(ls, [key] + rest) == Lookup(v.parts[i].arg[2..], rest)
    ensures (forall i :: 0 <= i < |v.parts| ==> LiteralKey(v.parts[i].arg[0].token) != Ok(key)) ==> Lookup(ls, [key] + rest) == Missing
  {
    hide ParseArray, Unparse, OneExpression, LiteralKey, ArrayBracketed;
    ParsesExactly(ls, v);
    assert ([key] + rest)[1..] == rest;
    var k := FindKey(v.parts, key);
    forall i | 0 <= i < |v.parts| && LiteralKey(v.parts[i].arg[0].token) == Ok(key)
      ensures i == k
    {
      assert PartKey(v.parts[i]) == Ok(key);
    }
  }

  /** A path ends at its value, and leads nowhere through what is no literal array. */
  lemma LookupEnds(ls: seq<Lexeme>, key: string, rest: seq<string>)
    ensures Lookup(ls, []) == Value(ls)
    ensures (forall v :: !LiteralArray(ls, v)) ==> Lookup(ls, [key] + rest) == NotArray
  {
    hide ParseArray, LiteralArray;
    if ParseArray(ls).Ok? { ParsesExactly(ls, ParseArray(ls).value); }
  }

  /** A patch is refused unless the source scans, returns an array, and the path leads
      through literal arrays. */
  lemma PatchedExactly(src: string, path: seq<string>, value: string)
    ensures L.PatchArray(src, path, value).Ok? <==>
      && path != [] && Parse(src).Ok?
      && var ls := Parse(src).value.lexemes; exists s: nat, e: nat :: ReturnsArray(ls, s, e) && !Lookup(ls[s..e], path).NotArray?
  {
    hide Parse, Returned, ReturnsArray, L.ReplaceText, L.InsertText, Lookup, Balanced;
    if Parse(src).Ok? {
      var ls := Parse(src).value.lexemes;
      ParseBalanced(src);
      ReturnedDecides(ls);
      if Returned(ls).Ok? {
        forall s: nat, e: nat | ReturnsArray(ls, s, e)
          ensures Returned(ls) == Ok((s, e))
        {
          ReturnedExactly(ls, s, e);
        }
      }
    }
  }

  lemma ParseBalanced(src: string)
    requires Parse(src).Ok?
    ensures Balanced(Parse(src).value.lexemes)
  {
    hide Scan, Balanced, CheckBrackets;
    CheckIsBalanced(Parse(src).value.lexemes);
  }
}
