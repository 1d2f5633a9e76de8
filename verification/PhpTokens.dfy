/** Tokens with the trivia before them, bracket matching and comma splitting.

    A lexeme is a token together with the HTML, blanks and comments that stand
    between it and the previous token, so a list of lexemes plus a tail of trivia
    is again the whole source.  `Parse` is the scan of plugins/framework_php.go
    with its bracket check. */
module PhpTokens {
  import opened Text
  import opened PhpLexer

  datatype Lexeme = Lexeme(gap: seq<Piece>, token: Piece) {
    function Txt(): string { token.text }
  }

  datatype Doc = Doc(lexemes: seq<Lexeme>, tail: seq<Piece>)

  predicate Trivia(ps: seq<Piece>) {
    forall p :: p in ps ==> !IsToken(p)
  }

  predicate WellFormed(ls: seq<Lexeme>) {
    forall l :: l in ls ==> Trivia(l.gap) && IsToken(l.token)
  }

  lemma WellFormedConcat(a: seq<Lexeme>, b: seq<Lexeme>)
    ensures WellFormed(a + b) <==> WellFormed(a) && WellFormed(b)
  {
  }

  function Pieces(ls: seq<Lexeme>): seq<Piece> {
    if ls == [] then [] else ls[0].gap + [ls[0].token] + Pieces(ls[1..])
  }

  function Group(gap: seq<Piece>, ps: seq<Piece>): Doc
    decreases |ps|
  {
    if ps == [] then Doc([], gap)
    else if IsToken(ps[0]) then
      var d := Group([], ps[1..]);
      Doc([Lexeme(gap, ps[0])] + d.lexemes, d.tail)
    else Group(gap + [ps[0]], ps[1..])
  }

  function AllPieces(d: Doc): seq<Piece> { Pieces(d.lexemes) + d.tail }

  lemma {:induction false} PiecesConcat(a: seq<Lexeme>, b: seq<Lexeme>)
    ensures Pieces(a + b) == Pieces(a) + Pieces(b)
  {
    if a == [] {
      assert a + b == b;
    } else {
      assert (a + b)[1..] == a[1..] + b;
      PiecesConcat(a[1..], b);
    }
  }

  /** Grouping loses nothing: the lexemes and the tail are the pieces. */
  lemma {:induction false} GroupPieces(gap: seq<Piece>, ps: seq<Piece>)
    ensures AllPieces(Group(gap, ps)) == gap + ps
    decreases |ps|
  {
    hide IsToken;
    if ps == [] {
      assert gap + ps == gap;
    } else if IsToken(ps[0]) {
      var d := Group([], ps[1..]);
      GroupPieces([], ps[1..]);
      assert AllPieces(d) == ps[1..];
      assert ([Lexeme(gap, ps[0])] + d.lexemes)[1..] == d.lexemes;
      assert gap + [ps[0]] + Pieces(d.lexemes) + d.tail == gap + ([ps[0]] + AllPieces(d));
      assert [ps[0]] + ps[1..] == ps;
    } else {
      GroupPieces(gap + [ps[0]], ps[1..]);
      assert gap + [ps[0]] + ps[1..] == gap + ps;
    }
  }

  lemma {:induction false} GroupWellFormed(gap: seq<Piece>, ps: seq<Piece>)
    requires Trivia(gap)
    ensures WellFormed(Group(gap, ps).lexemes) && Trivia(Group(gap, ps).tail)
    decreases |ps|
  {
    if ps != [] {
      GroupWellFormed(if IsToken(ps[0]) then [] else gap + [ps[0]], ps[1..]);
    }
  }

  lemma {:induction false} GroupTrivia(gap: seq<Piece>, t: seq<Piece>, ps: seq<Piece>)
    requires Trivia(t)
    ensures Group(gap, t + ps) == Group(gap + t, ps)
    decreases |t|
  {
    if t == [] {
      assert t + ps == ps && gap + t == gap;
    } else {
      assert (t + ps)[1..] == t[1..] + ps;
      assert t[0] in t;
      GroupTrivia(gap + [t[0]], t[1..], ps);
      assert gap + [t[0]] + t[1..] == gap + t;
    }
  }

  /** Lexemes and tail are determined by their pieces. */
  lemma {:induction false} PiecesGroup(ls: seq<Lexeme>, tail: seq<Piece>)
    requires WellFormed(ls) && Trivia(tail)
    ensures Group([], Pieces(ls) + tail) == Doc(ls, tail)
  {
    if ls == [] {
      GroupTrivia([], tail, []);
      assert Pieces(ls) + tail == tail + [] && [] + tail == tail;
    } else {
      var rest := Pieces(ls[1..]) + tail;
      PiecesGroup(ls[1..], tail);
      GroupTrivia([], ls[0].gap, [ls[0].token] + rest);
      assert Pieces(ls) + tail == ls[0].gap + ([ls[0].token] + rest);
      assert ([ls[0].token] + rest)[1..] == rest && [] + ls[0].gap == ls[0].gap;
    }
  }

  // ----- brackets -----

  predicate IsOpen(s: string) { s == "[" || s == "(" || s == "{" }

  predicate IsClose(s: string) { s == "]" || s == ")" || s == "}" }

  function Opener(s: string): string
    requires IsClose(s)
  {
    if s == "]" then "[" else if s == ")" then "(" else "{"
  }

  /** One step of the bracket stack; None when a closing bracket does not match. */
  function Feed(stack: seq<string>, s: string): Option<seq<string>> {
    if IsOpen(s) then Some(stack + [s])
    else if IsClose(s) then
      if stack == [] || stack[|stack| - 1] != Opener(s) then None else Some(stack[..|stack| - 1])
    else Some(stack)
  }

  function Run(stack: seq<string>, ls: seq<Lexeme>): Option<seq<string>>
    decreases |ls|
  {
    if ls == [] then Some(stack)
    else
      match Feed(stack, ls[0].Txt())
      case None => None
      case Some(s) => Run(s, ls[1..])
  }

  /** A Dyck word over the three kinds of bracket. */
  predicate Balanced(ls: seq<Lexeme>) { Run([], ls) == Some([]) }

  /** phpMatching, relative to the opening bracket: how many tokens, from the
      head of ls, until the stack is empty again. */
  function MatchLength(ls: seq<Lexeme>, stack: seq<string>): (r: Result<nat, PhpError>)
    ensures r.Ok? ==> 0 < r.value <= |ls|
    decreases |ls|
  {
    if ls == [] then Err(UnterminatedExpression)
    else
      match Feed(stack, ls[0].Txt())
      case None => Err(Unbalanced)
      case Some(s) =>
        if IsClose(ls[0].Txt()) && s == [] then Ok(1)
        else
          match MatchLength(ls[1..], s)
          case Err(e) => Err(e)
          case Ok(n) => Ok(n + 1)
  }

  /** A bracketed group. */
  predicate IsGroup(ls: seq<Lexeme>) {
    && |ls| >= 2 && IsOpen(ls[0].Txt()) && IsClose(ls[|ls| - 1].Txt())
    && Opener(ls[|ls| - 1].Txt()) == ls[0].Txt()
    && Balanced(ls[1..|ls| - 1])
  }

  lemma {:induction false} RunConcat(stack: seq<string>, a: seq<Lexeme>, b: seq<Lexeme>)
    ensures Run(stack, a + b) == match Run(stack, a) case None => None case Some(s) => Run(s, b)
    decreases |a|
  {
    if a == [] {
      assert a + b == b;
    } else {
      assert (a + b)[1..] == a[1..] + b;
      match Feed(stack, a[0].Txt())
      case None =>
      case Some(s) => RunConcat(s, a[1..], b);
    }
  }

  /** A run that succeeds on a stack never looks below it. */
  lemma {:induction false} RunAbove(base: seq<string>, stack: seq<string>, ls: seq<Lexeme>)
    requires Run(stack, ls).Some?
    ensures Run(base + stack, ls) == Some(base + Run(stack, ls).value)
    decreases |ls|
  {
    if ls != [] {
      var s := Feed(stack, ls[0].Txt()).value;
      assert Feed(base + stack, ls[0].Txt()) == Some(base + s) by {
        if IsOpen(ls[0].Txt()) {
          assert base + stack + [ls[0].Txt()] == base + s;
        } else if IsClose(ls[0].Txt()) {
          assert (base + stack)[..|base + stack| - 1] == base + s;
        }
      }
      RunAbove(base, s, ls[1..]);
    }
  }

  lemma BalancedConcat(a: seq<Lexeme>, b: seq<Lexeme>)
    requires Balanced(a)
    ensures Balanced(a + b) <==> Balanced(b)
  {
    RunConcat([], a, b);
  }

  lemma {:induction false} MatchOut(ls: seq<Lexeme>, o: string, stack: seq<string>)
    requires IsOpen(o) && MatchLength(ls, [o] + stack).Ok?
    ensures var n := MatchLength(ls, [o] + stack).value;
      && Run(stack, ls[..n - 1]) == Some([])
      && IsClose(ls[n - 1].Txt()) && Opener(ls[n - 1].Txt()) == o
    decreases |ls|
  {
    hide IsOpen, IsClose, Opener, Feed;
    var n := MatchLength(ls, [o] + stack).value;
    var t := ls[0].Txt();
    FeedAbove(o, stack, t);
    if n > 1 {
      var s' := Feed(stack, t).value;
      MatchOut(ls[1..], o, s');
      assert ls[..n - 1] == [ls[0]] + ls[1..][..n - 2];
      assert ([ls[0]] + ls[1..][..n - 2])[1..] == ls[1..][..n - 2];
    } else {
      assert ls[..0] == [];
    }
  }

  /** A bracket that is open below does not matter until it is closed. */
  lemma FeedAbove(o: string, stack: seq<string>, t: string)
    requires IsOpen(o) && Feed([o] + stack, t).Some?
    ensures if IsClose(t) && Feed([o] + stack, t).value == [] then stack == [] && Opener(t) == o
      else Feed(stack, t).Some? && Feed([o] + stack, t).value == [o] + Feed(stack, t).value
  {
  }

  /** What phpMatching finds is a bracketed group ... */
  lemma MatchIsGroup(ls: seq<Lexeme>)
    requires ls != [] && IsOpen(ls[0].Txt()) && MatchLength(ls, []).Ok?
    ensures IsGroup(ls[..MatchLength(ls, []).value])
  {
    var n := MatchLength(ls, []).value;
    var o := ls[0].Txt();
    assert [] + [o] == [o] + [];
    MatchOut(ls[1..], o, []);
    assert ls[..n][1..n - 1] == ls[1..][..n - 2];
  }

  lemma {:induction false} MatchThrough(inner: seq<Lexeme>, rest: seq<Lexeme>, o: string, stack: seq<string>)
    requires Run(stack, inner).Some?
    ensures MatchLength(inner + rest, [o] + stack) ==
      match MatchLength(rest, [o] + Run(stack, inner).value) case Err(e) => Err(e) case Ok(n) => Ok(|inner| + n)
    decreases |inner|
  {
    if inner == [] {
      assert inner + rest == rest;
    } else {
      var t := inner[0].Txt();
      var s := Feed(stack, t).value;
      assert (inner + rest)[1..] == inner[1..] + rest;
      assert Feed([o] + stack, t) == Some([o] + s) by {
        if IsOpen(t) {
          assert [o] + stack + [t] == [o] + s;
        } else if IsClose(t) {
          assert ([o] + stack)[..|stack|] == [o] + s;
        }
      }
      MatchThrough(inner[1..], rest, o, s);
    }
  }

  /** ... and every bracketed group is found, whatever follows it. */
  lemma GroupMatches(g: seq<Lexeme>, rest: seq<Lexeme>)
    requires IsGroup(g)
    ensures MatchLength(g + rest, []) == Ok(|g|)
  {
    var o, inner, close := g[0].Txt(), g[1..|g| - 1], g[|g| - 1];
    assert (g + rest)[1..] == inner + ([close] + rest);
    assert [] + [o] == [o] + [];
    MatchThrough(inner, [close] + rest, o, []);
  }

  lemma GroupBalanced(g: seq<Lexeme>)
    requires IsGroup(g)
    ensures Balanced(g)
  {
    var o, inner, close := g[0].Txt(), g[1..|g| - 1], g[|g| - 1];
    assert g == [g[0]] + (inner + [close]);
    RunAbove([o], [], inner);
    assert [o] + [] == [o];
    RunConcat([o], inner, [close]);
    assert Feed([o], close.Txt()) == Some([]);
    assert [] + [o] == [o];
  }

  /** The bracket check at the end of the scan. */
  function CheckBrackets(ls: seq<Lexeme>): Option<PhpError> {
    if ls == [] then None
    else if IsOpen(ls[0].Txt()) then
      match MatchLength(ls, [])
      case Err(e) => Some(e)
      case Ok(n) => CheckBrackets(ls[n..])
    else if IsClose(ls[0].Txt()) then Some(Unbalanced)
    else CheckBrackets(ls[1..])
  }

  lemma {:induction false} RunMatches(ls: seq<Lexeme>, o: string, stack: seq<string>)
    requires IsOpen(o) && Run([o] + stack, ls) == Some([])
    ensures MatchLength(ls, [o] + stack).Ok?
  {
    if ls == [] {
    } else {
      var t := ls[0].Txt();
      var s := Feed([o] + stack, t).value;
      if !(IsClose(t) && s == []) {
        assert s != [] && s[0] == o by {
          if IsClose(t) { assert s == ([o] + stack)[..|stack|]; }
        }
        assert s == [o] + s[1..];
        RunMatches(ls[1..], o, s[1..]);
      }
    }
  }

  /** The check accepts exactly the Dyck words. */
  lemma {:induction false} CheckIsBalanced(ls: seq<Lexeme>)
    ensures CheckBrackets(ls).None? <==> Balanced(ls)
    decreases |ls|
  {
    if ls == [] {
    } else if IsOpen(ls[0].Txt()) {
      var o := ls[0].Txt();
      assert [] + [o] == [o] + [];
      if Balanced(ls) { RunMatches(ls[1..], o, []); }
      if MatchLength(ls, []).Ok? {
        var n := MatchLength(ls, []).value;
        assert ls == ls[..n] + ls[n..];
        MatchIsGroup(ls);
        GroupBalanced(ls[..n]);
        BalancedConcat(ls[..n], ls[n..]);
        CheckIsBalanced(ls[n..]);
      }
    } else {
      CheckIsBalanced(ls[1..]);
    }
  }

  /** scanPHP: the pieces grouped into lexemes, refused when there is no token or
      the brackets do not match. */
  function Parse(src: string): Result<Doc, PhpError> {
    match Scan(src, false)
    case Err(e) => Err(e)
    case Ok(ps) =>
      var d := Group([], ps);
      if d.lexemes == [] then Err(NoCode)
      else
        match CheckBrackets(d.lexemes)
        case Some(e) => Err(e)
        case None => Ok(d)
  }

  // ----- comma-separated expressions -----

  predicate IsComma(l: Lexeme) { l.Txt() == "," }

  /** Length of the bracketed group or the single token at the head of ls. */
  function AtomLength(ls: seq<Lexeme>): (r: Result<nat, PhpError>)
    requires ls != []
    ensures r.Ok? ==> 0 < r.value <= |ls|
  {
    if IsOpen(ls[0].Txt()) then MatchLength(ls, [])
    else if IsClose(ls[0].Txt()) then Err(UnbalancedExpression)
    else Ok(1)
  }

  /** Length of the expression at the head of ls: up to a comma that no bracket
      encloses, or to the end. */
  function ArgLength(ls: seq<Lexeme>): (r: Result<nat, PhpError>)
    ensures r.Ok? ==> r.value <= |ls|
    decreases |ls|
  {
    if ls == [] || IsComma(ls[0]) then Ok(0)
    else
      match AtomLength(ls)
      case Err(_) => Err(UnbalancedExpression)
      case Ok(m) =>
        match ArgLength(ls[m..])
        case Err(e) => Err(e)
        case Ok(n) => Ok(m + n)
  }

  /** An expression without a comma of its own. */
  predicate Neutral(ls: seq<Lexeme>) { ArgLength(ls) == Ok(|ls|) }

  /** One expression of a comma-separated list with the comma that ends it. */
  datatype Part = Part(arg: seq<Lexeme>, comma: seq<Lexeme>)

  function Flat(parts: seq<Part>): seq<Lexeme> {
    if parts == [] then [] else parts[0].arg + parts[0].comma + Flat(parts[1..])
  }

  /** phpSegments: only the last expression may lack its comma. */
  function Split(ls: seq<Lexeme>): Result<seq<Part>, PhpError>
    decreases |ls|
  {
    if ls == [] then Ok([])
    else
      match ArgLength(ls)
      case Err(e) => Err(e)
      case Ok(n) =>
        if n == 0 then Err(EmptyExpression)
        else if n == |ls| then Ok([Part(ls, [])])
        else
          match Split(ls[n + 1..])
          case Err(e) => Err(e)
          case Ok(parts) => Ok([Part(ls[..n], [ls[n]])] + parts)
  }

  predicate ValidPart(p: Part) {
    p.arg != [] && Neutral(p.arg) && |p.comma| <= 1 && (p.comma != [] ==> IsComma(p.comma[0]))
  }

  predicate ValidParts(parts: seq<Part>) {
    forall i :: 0 <= i < |parts| ==> ValidPart(parts[i]) && (i < |parts| - 1 ==> parts[i].comma != [])
  }

  lemma AtomThrough(a: seq<Lexeme>, rest: seq<Lexeme>)
    requires a != [] && AtomLength(a).Ok?
    ensures var m := AtomLength(a).value;
      AtomLength(a + rest) == Ok(m) && AtomLength(a[..m]) == Ok(m) && Balanced(a[..m])
  {
    hide MatchLength, IsGroup, IsOpen, IsClose, Balanced;
    var m := AtomLength(a).value;
    assert (a + rest)[0] == a[0] && a[..m][0] == a[0];
    if IsOpen(a[0].Txt()) {
      MatchIsGroup(a);
      GroupMatches(a[..m], a[m..] + rest);
      GroupMatches(a[..m], []);
      GroupBalanced(a[..m]);
      assert a + rest == a[..m] + (a[m..] + rest);
      assert a[..m] + [] == a[..m];
    } else {
      assert a[..1] == [a[0]];
      NeutralOne(a[0]);
    }
  }

  lemma NeutralOne(l: Lexeme)
    requires !IsOpen(l.Txt()) && !IsClose(l.Txt())
    ensures Balanced([l])
  {
  }

  lemma ArgSkips(ls: seq<Lexeme>, m: nat)
    requires ls != [] && !IsComma(ls[0]) && AtomLength(ls) == Ok(m)
    ensures ArgLength(ls) == match ArgLength(ls[m..]) case Err(e) => Err(e) case Ok(n) => Ok(m + n)
  {
    hide AtomLength;
  }

  lemma {:induction false} ArgThrough(a: seq<Lexeme>, rest: seq<Lexeme>)
    requires Neutral(a)
    ensures ArgLength(a + rest) == match ArgLength(rest) case Err(e) => Err(e) case Ok(n) => Ok(|a| + n)
    decreases |a|
  {
    hide AtomLength, Balanced;
    if a == [] {
      assert a + rest == rest;
    } else {
      var m := AtomLength(a).value;
      AtomThrough(a, rest);
      assert (a + rest)[m..] == a[m..] + rest && (a + rest)[0] == a[0];
      ArgSkips(a, m);
      ArgSkips(a + rest, m);
      ArgThrough(a[m..], rest);
    }
  }

  lemma {:induction false} ArgIsNeutral(ls: seq<Lexeme>)
    requires ArgLength(ls).Ok?
    ensures var n := ArgLength(ls).value; Neutral(ls[..n]) && (n < |ls| ==> IsComma(ls[n]))
    decreases |ls|
  {
    hide AtomLength, Balanced, ArgLength;
    if ls == [] || IsComma(ls[0]) {
      NoArg(ls);
      NoArg([]);
      assert ls[..0] == [];
    } else {
      ArgStarts(ls);
      var m := AtomLength(ls).value;
      ArgSkips(ls, m);
      ArgIsNeutral(ls[m..]);
      var k := ArgLength(ls[m..]).value;
      assert ls[..m + k] == ls[..m] + ls[m..][..k];
      AtomThrough(ls, []);
      assert ls[..m][m..] == [] && ls[..m][0] == ls[0];
      NoArg([]);
      ArgSkips(ls[..m], m);
      ArgThrough(ls[..m], ls[m..][..k]);
    }
  }

  lemma NoArg(ls: seq<Lexeme>)
    requires ls == [] || IsComma(ls[0])
    ensures ArgLength(ls) == Ok(0)
  {
  }

  lemma ArgStarts(ls: seq<Lexeme>)
    requires ls != [] && !IsComma(ls[0]) && ArgLength(ls).Ok?
    ensures AtomLength(ls).Ok?
  {
  }

  lemma {:induction false} NeutralBalanced(a: seq<Lexeme>)
    requires Neutral(a)
    ensures Balanced(a)
    decreases |a|
  {
    hide AtomLength;
    if a != [] {
      var m := AtomLength(a).value;
      AtomThrough(a, []);
      assert a == a[..m] + a[m..];
      NeutralBalanced(a[m..]);
      BalancedConcat(a[..m], a[m..]);
    }
  }

  lemma NeutralConcat(a: seq<Lexeme>, b: seq<Lexeme>)
    requires Neutral(a) && Neutral(b)
    ensures Neutral(a + b)
  {
    ArgThrough(a, b);
  }

  lemma {:induction false} FlatConcat(a: seq<Part>, b: seq<Part>)
    ensures Flat(a + b) == Flat(a) + Flat(b)
  {
    if a == [] {
      assert a + b == b;
    } else {
      assert (a + b)[1..] == a[1..] + b;
      FlatConcat(a[1..], b);
    }
  }

  /** Splitting returns neutral expressions that make up the list ... */
  lemma {:induction false} SplitFlat(ls: seq<Lexeme>)
    requires Split(ls).Ok?
    ensures Flat(Split(ls).value) == ls && ValidParts(Split(ls).value)
    decreases |ls|
  {
    hide ArgLength, ValidPart;
    if ls != [] {
      ArgIsNeutral(ls);
      var n := ArgLength(ls).value;
      if n == |ls| {
        assert ls[..n] == ls;
        LastPart(ls);
      } else {
        SplitFlat(ls[n + 1..]);
        PartFits(ls, n, Split(ls[n + 1..]).value);
      }
    }
  }

  lemma LastPart(ls: seq<Lexeme>)
    requires ls != [] && Neutral(ls)
    ensures Flat([Part(ls, [])]) == ls && ValidParts([Part(ls, [])])
  {
  }

  lemma PartFits(ls: seq<Lexeme>, n: nat, rest: seq<Part>)
    requires 0 < n < |ls| && Neutral(ls[..n]) && IsComma(ls[n]) && Flat(rest) == ls[n + 1..] && ValidParts(rest)
    requires rest == [] ==> ls[n + 1..] == []
    ensures var parts := [Part(ls[..n], [ls[n]])] + rest; Flat(parts) == ls && ValidParts(parts)
  {
    hide ArgLength;
    var parts := [Part(ls[..n], [ls[n]])] + rest;
    assert parts[1..] == rest;
    assert ls == ls[..n] + [ls[n]] + ls[n + 1..];
    assert forall i :: 0 < i < |parts| ==> parts[i] == rest[i - 1];
  }

  /** The first expression of a list. */
  lemma SplitOne(p: Part, tail: seq<Lexeme>)
    requires ValidPart(p) && (p.comma == [] ==> tail == [])
    ensures Split(p.arg + p.comma + tail) ==
      if p.comma == [] then Ok([p]) else match Split(tail) case Err(e) => Err(e) case Ok(rest) => Ok([p] + rest)
  {
    hide AtomLength, Balanced;
    var ls := p.arg + p.comma + tail;
    assert ls == p.arg + (p.comma + tail);
    ArgThrough(p.arg, p.comma + tail);
    if p.comma == [] {
      assert p.comma + tail == [] && ls == p.arg;
    } else {
      assert (p.comma + tail)[0] == p.comma[0];
      PartSlices(p.arg, p.comma[0], tail);
      assert p.comma == [p.comma[0]];
    }
  }

  lemma PartSlices<T>(a: seq<T>, c: T, tail: seq<T>)
    ensures var ls := a + [c] + tail; ls[..|a|] == a && ls[|a|] == c && ls[|a| + 1..] == tail
  {
  }

  /** ... and any such list splits into exactly its expressions. */
  lemma {:induction false} FlatSplit(parts: seq<Part>)
    requires ValidParts(parts)
    ensures Split(Flat(parts)) == Ok(parts)
    decreases |parts|
  {
    hide Split, ValidPart;
    if parts == [] {
      NoParts();
    } else {
      FlatSplit(parts[1..]);
      LastComma(parts);
      SplitOne(parts[0], Flat(parts[1..]));
      assert parts == [parts[0]] + parts[1..];
      assert parts[0].comma == [] ==> parts == [parts[0]];
    }
  }

  lemma NoParts()
    ensures Split(Flat([])) == Ok([])
  {
  }

  lemma LastComma(parts: seq<Part>)
    requires ValidParts(parts) && parts != []
    ensures ValidPart(parts[0]) && (parts[0].comma == [] ==> Flat(parts[1..]) == [] && parts[1..] == [])
    ensures ValidParts(parts[1..])
  {
  }

  lemma {:induction false} PartsBalanced(parts: seq<Part>)
    requires ValidParts(parts)
    ensures Balanced(Flat(parts))
  {
    if parts != [] {
      var p, rest := parts[0], parts[1..];
      assert ValidPart(p);
      NeutralBalanced(p.arg);
      assert Balanced(p.comma);
      PartsBalanced(rest);
      BalancedConcat(p.arg, p.comma + Flat(rest));
      BalancedConcat(p.comma, Flat(rest));
      assert Flat(parts) == p.arg + (p.comma + Flat(rest));
    }
  }
}
