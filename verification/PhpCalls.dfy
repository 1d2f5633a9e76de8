/** Which tokens are a literal `define` call, told by the tokens alone. */
module PhpCalls {
  import opened Text
  import opened PhpLexer
  import S = Sequences
  import opened PhpTokens
  import opened PhpLiterals
  import opened PhpArray
  import opened PhpDefines
  import opened PhpReturned

  /** Token i is the name of a call of the global function: no variable, member or
      declaration of that name, and no function of that name in a namespace. */
  predicate GlobalDefine(ls: seq<Lexeme>, i: nat) {
    && i + 1 < |ls| && AnyCase(ls[i].Txt(), "define", "DEFINE") && ls[i + 1].Txt() == "("
    && (i == 0 || (ls[i - 1].Txt() != "$" && ls[i - 1].Txt() != "->" && ls[i - 1].Txt() != "::" && ls[i - 1].Txt() != "function"))
    && (i < 2 || ls[i - 1].Txt() != "\\" || ls[i - 2].token.kind != Identifier)
  }

  lemma DefinesExactly(ls: seq<Lexeme>, i: nat)
    requires i < |ls|
    ensures IsDefine(ls, i) <==> GlobalDefine(ls, i)
  {
    hide FoldsTo, AnyCase;
    FoldsSpelled(ls[i].Txt(), "define", "DEFINE");
  }

  /** What may stand behind the second argument: a comma, a third argument, and a comma
      behind that. */
  predicate ArgumentTail(ls: seq<Lexeme>) {
    || ls == []
    || (ls[0].Txt() == "," &&
         (|ls| == 1 || OneExpression(ls[1..]) || (|ls| > 2 && ls[|ls| - 1].Txt() == "," && OneExpression(ls[1..|ls| - 1]))))
  }

  /** The tokens from i to d.next are the arguments of a literal call: a string, a comma,
      one expression, and perhaps another one. */
  predicate LiteralCall(ls: seq<Lexeme>, i: nat, d: Define) {
    && d.at == i && d.first == i + 4 < d.last < d.next <= |ls|
    && ls[i + 1].Txt() == "(" && LiteralKey(ls[i + 2].token) == Ok(d.key) && ls[i + 3].Txt() == "," && ls[d.next - 1].Txt() == ")"
    && OneExpression(ls[d.first..d.last]) && ArgumentTail(ls[d.last..d.next - 1])
  }

  lemma CallsExactly(ls: seq<Lexeme>, i: nat, d: Define)
    requires i < |ls| && IsDefine(ls, i)
    ensures DefineAt(ls, i) == Ok(d) <==> LiteralCall(ls, i, d)
  {
    hide CallAt, OneExpression, LiteralKey, FoldsTo, ArgumentTail, DefineAt, IsDefine;
    if DefineAt(ls, i) == Ok(d) || LiteralCall(ls, i, d) {
      var c := Define(0, d.key, 4, d.last - i, d.next - i);
      DefineIs(ls, i, c);
      CallShapes(ls[i..], c);
      S.Slice(ls, i, 4, c.last);
      S.Slice(ls, i, c.last, c.next - 1);
    }
  }

  lemma CallShapes(xs: seq<Lexeme>, c: Define)
    requires |xs| >= 2 && xs[1].Txt() == "(" && c.at == 0 && c.first == 4 < c.last < c.next <= |xs|
    ensures CallAt(xs) == Ok(c) <==>
      && LiteralKey(xs[2].token) == Ok(c.key) && xs[3].Txt() == "," && xs[c.next - 1].Txt() == ")"
      && OneExpression(xs[4..c.last]) && ArgumentTail(xs[c.last..c.next - 1])
  {
    hide CallAt, OneExpression, LiteralKey, ArgumentTail;
    if CallAt(xs) == Ok(c) { CallHas(xs, c); }
    if LiteralKey(xs[2].token) == Ok(c.key) && xs[3].Txt() == "," && xs[c.next - 1].Txt() == ")" && OneExpression(xs[4..c.last]) && ArgumentTail(xs[c.last..c.next - 1]) {
      CallMade(xs, c);
    }
  }

  /** A recognized call has this shape ... */
  lemma CallHas(xs: seq<Lexeme>, c: Define)
    requires |xs| >= 2 && xs[1].Txt() == "(" && CallAt(xs) == Ok(c)
    ensures LiteralKey(xs[2].token) == Ok(c.key) && xs[3].Txt() == "," && xs[c.next - 1].Txt() == ")"
    ensures OneExpression(xs[4..c.last]) && ArgumentTail(xs[c.last..c.next - 1])
  {
    hide MatchLength, Balanced, LiteralKey, ArgLength, Flat, Split, Neutral, OneExpression, ArgumentTail;
    var n := MatchLength(xs[1..], []).value;
    CallGroup(xs, n);
    ArgsFit(xs[2..n]);
    SplitFlat(xs[2..n]);
    var args := Split(xs[2..n]).value;
    assert ValidPart(args[0]) && ValidPart(args[1]);
    CallParts(xs, n, args[0].arg, args[0].comma, args[1].arg, args[1].comma + Flat(args[2..]));
    ExpressionIs(args[1].arg);
    TailHas(args);
  }

  lemma CallParts<T>(xs: seq<T>, n: nat, a: seq<T>, k: seq<T>, b: seq<T>, c: seq<T>)
    requires 2 <= n <= |xs| && xs[2..n] == a + k + b + c && |a| == |k| == 1
    ensures 4 + |b| <= n && xs[2] == a[0] && xs[3] == k[0] && xs[4..4 + |b|] == b && xs[4 + |b|..n] == c
  {
    var m, e := xs[2..n], 4 + |b|;
    S.Middle(a + k, b, c);
    assert m[0] == xs[2] && m[1] == xs[3];
    assert (a + k + b + c)[0] == a[0] && (a + k + b + c)[1] == k[0];
    assert m[2..2 + |b|] == b && m[2 + |b|..] == c;
    S.SliceIn(xs, 2, n, 2, 2 + |b|);
    S.SliceIn(xs, 2, n, 2 + |b|, |m|);
  }

  lemma TailHas(args: seq<Part>)
    requires 2 <= |args| <= 3 && ValidParts(args)
    ensures ArgumentTail(args[1].comma + Flat(args[2..]))
  {
    hide Neutral, OneExpression;
    var rest := args[2..];
    if |args| == 2 {
      FlatEmptyIs(rest);
      assert args[1].comma + [] == args[1].comma;
    } else {
      var p := args[2];
      assert ValidPart(p) && ValidPart(args[1]) && args[1].comma != [];
      FlatHead(rest);
      FlatEmptyIs(rest[1..]);
      ExpressionIs(p.arg);
      ThirdTail(args[1].comma[0], p.arg, p.comma);
      assert args[1].comma == [args[1].comma[0]];
      assert p.arg + p.comma + [] == p.arg + p.comma;
    }
  }

  lemma ThirdTail(c: Lexeme, third: seq<Lexeme>, comma: seq<Lexeme>)
    requires c.Txt() == "," && third != [] && OneExpression(third) && |comma| <= 1 && (comma != [] ==> comma[0].Txt() == ",")
    ensures ArgumentTail([c] + (third + comma))
  {
    hide OneExpression;
    var t := [c] + (third + comma);
    if comma == [] {
      assert t[1..] == third;
    } else {
      assert t[1..|t| - 1] == third && t[|t| - 1] == comma[0];
    }
  }

  /** ... and whatever has it is one. */
  lemma CallMade(xs: seq<Lexeme>, c: Define)
    requires |xs| >= 2 && xs[1].Txt() == "(" && c.at == 0 && c.first == 4 < c.last < c.next <= |xs|
    requires LiteralKey(xs[2].token) == Ok(c.key) && xs[3].Txt() == "," && xs[c.next - 1].Txt() == ")"
    requires OneExpression(xs[4..c.last]) && ArgumentTail(xs[c.last..c.next - 1])
    ensures CallAt(xs) == Ok(c)
  {
    hide CallAt, Flat, LiteralKey, OneExpression, ArgumentTail, ValidParts;
    var v, tail := xs[4..c.last], xs[c.last..c.next - 1];
    var args := PartsMade(xs[2], xs[3], v, tail);
    assert xs == [xs[0], xs[1]] + Flat(args) + [xs[c.next - 1]] + xs[c.next..];
    CallIs(xs, xs[0], xs[1], args, xs[c.next - 1], xs[c.next..], c.key);
  }

  lemma PartsMade(key: Lexeme, comma: Lexeme, v: seq<Lexeme>, tail: seq<Lexeme>) returns (args: seq<Part>)
    requires LiteralKey(key.token).Ok? && comma.Txt() == "," && v != [] && OneExpression(v) && ArgumentTail(tail)
    ensures 2 <= |args| <= 3 && ValidParts(args) && args[0].arg == [key] && args[1].arg == v
    ensures Flat(args) == [key, comma] + v + tail
  {
    hide OneExpression, LiteralKey, Neutral, Flat;
    KeyIsLong(key.token);
    SingleNeutral(key);
    ExpressionIs(v);
    var a, second, rest := Part([key], [comma]), Part(v, []), [];
    if tail != [] {
      var third, last := tail[1..], [];
      if |tail| > 1 && !OneExpression(third) { third, last := tail[1..|tail| - 1], [tail[|tail| - 1]]; }
      second := Part(v, [tail[0]]);
      if |tail| > 1 {
        ExpressionIs(third);
        rest := [Part(third, last)];
        assert tail == [tail[0]] + (third + last);
        FlatHead(rest);
        assert third + last + [] == third + last;
      } else {
        assert tail == [tail[0]] + [];
      }
    }
    args := [a, second] + rest;
    FlatPair(a, second, rest);
    if rest == [] { FlatEmptyIs(rest); } else { FlatEmptyIs(rest[1..]); }
    assert [key] + [comma] == [key, comma];
  }

  // ----- all calls -----

  /** ds are the calls from token i on that stand in no other call, in order. */
  ghost predicate CallsFrom(ls: seq<Lexeme>, i: nat, ds: seq<Define>) {
    && (forall k :: 0 <= k < |ds| ==> i <= ds[k].at && GlobalDefine(ls, ds[k].at) && LiteralCall(ls, ds[k].at, ds[k]))
    && (forall j, k :: 0 <= j < k < |ds| ==> ds[j].next <= ds[k].at)
    && (forall j :: i <= j < |ls| && GlobalDefine(ls, j) ==> Covered(ds, j))
  }

  /** Token j belongs to one of the calls. */
  predicate Covered(ds: seq<Define>, j: nat) { exists k :: 0 <= k < |ds| && ds[k].at <= j < ds[k].next }

  /** The walk over the tokens finds these, and is refused when one of them is not
      literal. */
  lemma {:induction false} WalksExactly(ls: seq<Lexeme>, i: nat, ds: seq<Define>)
    requires i <= |ls|
    ensures Walk(ls, i) == Ok(ds) <==> CallsFrom(ls, i, ds)
    decreases |ls| - i
  {
    hide IsDefine, DefineAt, GlobalDefine, LiteralCall;
    if i == |ls| {
      if CallsFrom(ls, i, ds) && ds != [] { CallBounds(ls, ds[0].at, ds[0]); }
    } else {
      DefinesExactly(ls, i);
      if IsDefine(ls, i) {
        CallFirst(ls, i, ds);
        WalkFirst(ls, i, ds);
        if ds != [] {
          CallsExactly(ls, i, ds[0]);
          if LiteralCall(ls, i, ds[0]) {
            CallBounds(ls, i, ds[0]);
            WalksExactly(ls, ds[0].next, ds[1..]);
          }
        }
      } else {
        WalksExactly(ls, i + 1, ds);
        CallsSkip(ls, i, ds);
      }
    }
  }

  lemma WalkFirst(ls: seq<Lexeme>, i: nat, ds: seq<Define>)
    requires i < |ls| && IsDefine(ls, i)
    ensures Walk(ls, i) == Ok(ds) <==> ds != [] && DefineAt(ls, i) == Ok(ds[0]) && Walk(ls, ds[0].next) == Ok(ds[1..])
  {
    hide IsDefine, DefineAt;
    if ds != [] { assert ds == [ds[0]] + ds[1..]; }
  }

  lemma CallFirst(ls: seq<Lexeme>, i: nat, ds: seq<Define>)
    requires i < |ls| && GlobalDefine(ls, i)
    ensures CallsFrom(ls, i, ds) <==> ds != [] && LiteralCall(ls, i, ds[0]) && CallsFrom(ls, ds[0].next, ds[1..])
  {
    hide GlobalDefine, LiteralCall;
    if CallsFrom(ls, i, ds) {
      assert Covered(ds, i);
      FirstCovers(ls, i, ds);
      CallBounds(ls, i, ds[0]);
      RestCovers(ls, ds);
    }
    if ds != [] && LiteralCall(ls, i, ds[0]) && CallsFrom(ls, ds[0].next, ds[1..]) {
      CallBounds(ls, i, ds[0]);
      AllCovered(ls, i, ds);
    }
  }

  lemma FirstCovers(ls: seq<Lexeme>, i: nat, ds: seq<Define>)
    requires CallsFrom(ls, i, ds) && Covered(ds, i) && i < |ls|
    ensures ds != [] && ds[0].at == i && LiteralCall(ls, i, ds[0])
  {
    hide GlobalDefine, LiteralCall;
    var k :| 0 <= k < |ds| && ds[k].at <= i < ds[k].next;
    if k > 0 { CallBounds(ls, ds[0].at, ds[0]); }
  }

  lemma RestCovers(ls: seq<Lexeme>, ds: seq<Define>)
    requires ds != [] && CallsFrom(ls, ds[0].at, ds)
    ensures CallsFrom(ls, ds[0].next, ds[1..])
  {
    hide GlobalDefine, LiteralCall, Covered;
    CallBounds(ls, ds[0].at, ds[0]);
    forall j | ds[0].next <= j && Covered(ds, j)
      ensures Covered(ds[1..], j)
    {
      CoveredLater(ds, j);
    }
    assert forall k :: 0 <= k < |ds[1..]| ==> ds[1..][k] == ds[k + 1];
  }

  lemma CoveredLater(ds: seq<Define>, j: nat)
    requires ds != [] && ds[0].next <= j && Covered(ds, j)
    ensures Covered(ds[1..], j)
  {
    var k :| 0 <= k < |ds| && ds[k].at <= j < ds[k].next;
    assert ds[1..][k - 1] == ds[k];
  }

  lemma AllCovered(ls: seq<Lexeme>, i: nat, ds: seq<Define>)
    requires i < |ls| && GlobalDefine(ls, i) && ds != [] && LiteralCall(ls, i, ds[0]) && ds[0].at == i < ds[0].next && CallsFrom(ls, ds[0].next, ds[1..])
    ensures CallsFrom(ls, i, ds)
  {
    hide GlobalDefine, LiteralCall;
    var rest := ds[1..];
    assert forall k :: 1 <= k < |ds| ==> ds[k] == rest[k - 1];
    forall j | i <= j < |ls| && GlobalDefine(ls, j)
      ensures Covered(ds, j)
    {
      if j >= ds[0].next {
        assert Covered(rest, j);
        var k :| 0 <= k < |rest| && rest[k].at <= j < rest[k].next;
        assert ds[k + 1] == rest[k];
      }
    }
  }

  lemma CallBounds(ls: seq<Lexeme>, i: nat, d: Define)
    requires GlobalDefine(ls, i) && LiteralCall(ls, i, d)
    ensures d.at == i < d.next <= |ls|
  {
  }

  lemma CallsSkip(ls: seq<Lexeme>, i: nat, ds: seq<Define>)
    requires i < |ls| && !GlobalDefine(ls, i)
    ensures CallsFrom(ls, i, ds) <==> CallsFrom(ls, i + 1, ds)
  {
    hide GlobalDefine, LiteralCall, Covered;
  }
}
