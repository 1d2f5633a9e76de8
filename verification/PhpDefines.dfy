/** The literal `define` calls of a token list, as a keyed list of values.

    `Walk` is the scan of patchPHPConstants: it jumps over the arguments of every
    call it recognizes.  The lemmas say how the calls found change when the value
    of one call is replaced, or when new calls are inserted between two steps. */
module PhpDefines {
  import opened Text
  import opened PhpLexer
  import S = Sequences
  import opened PhpTokens
  import opened PhpLiterals
  import opened PhpArray
  import opened PhpScalars
  import opened PhpSplice
  import opened PhpEntries

  /** A recognized call: its key, where its name stands, and the range of the
      tokens of its value. */
  datatype Define = Define(at: nat, key: string, first: nat, last: nat, next: nat)

  predicate Hides(s: string) { s == "$" || s == "->" || s == "::" || s == "function" }

  /** Token i starts a call of the global function define. */
  predicate IsDefine(ls: seq<Lexeme>, i: nat)
    requires i < |ls|
  {
    && FoldsTo(ls[i].Txt(), "define") && i + 1 < |ls| && ls[i + 1].Txt() == "("
    && !Suppressed(ls, i)
  }

  /** What stands before token i keeps it from being the global function. */
  predicate Suppressed(ls: seq<Lexeme>, i: nat)
    requires i <= |ls|
  {
    || (i > 0 && Hides(ls[i - 1].Txt()))
    || (i > 1 && ls[i - 1].Txt() == "\\" && ls[i - 2].token.kind == Identifier)
  }

  /** The arguments of the call whose name is the first token. */
  function CallAt(ls: seq<Lexeme>): (r: Result<Define, PhpError>)
    requires |ls| >= 2 && ls[1].Txt() == "("
    ensures r.Ok? ==> r.value.at == 0 && 4 == r.value.first < r.value.last < r.value.next <= |ls|
  {
    match MatchLength(ls[1..], [])
    case Err(e) => Err(e)
    case Ok(n) =>
      if n < 2 then Err(DefineArguments) else
      match Split(ls[2..n])
      case Err(_) => Err(DefineArguments)
      case Ok(args) =>
        if |args| < 2 || |args| > 3 || |args[0].arg| != 1 then Err(DefineArguments)
        else
          match LiteralKey(args[0].arg[0].token)
          case Err(e) => Err(e)
          case Ok(key) =>
            assert 5 <= 4 + |args[1].arg| < n + 1 by { ArgsFit(ls[2..n]); }
            Ok(Define(0, key, 4, 4 + |args[1].arg|, n + 1))
  }

  lemma ArgsFit(ls: seq<Lexeme>)
    requires Split(ls).Ok? && |Split(ls).value| >= 2 && |Split(ls).value[0].arg| == 1
    ensures var args := Split(ls).value;
      && args[1].arg != [] && 2 + |args[1].arg| <= |ls| && |args[0].comma| == 1
      && ls == args[0].arg + args[0].comma + args[1].arg + (args[1].comma + Flat(args[2..]))
  {
    hide Split, Flat, ArgLength, ValidPart;
    var args := Split(ls).value;
    SplitFlat(ls);
    PartsFit(args);
  }

  lemma PartsFit(args: seq<Part>)
    requires |args| >= 2 && ValidParts(args) && |args[0].arg| == 1
    ensures args[1].arg != [] && |args[0].comma| == 1 && 2 + |args[1].arg| <= |Flat(args)|
    ensures Flat(args) == args[0].arg + args[0].comma + args[1].arg + (args[1].comma + Flat(args[2..]))
  {
    hide Flat, ArgLength;
    FlatHead(args);
    FlatHead(args[1..]);
    assert args[1..][0] == args[1] && args[1..][1..] == args[2..];
    FourParts(args[0].arg, args[0].comma, args[1].arg, args[1].comma, Flat(args[2..]));
  }

  lemma FourParts<T>(a: seq<T>, b: seq<T>, c: seq<T>, d: seq<T>, e: seq<T>)
    ensures a + b + (c + d + e) == a + b + c + (d + e)
  {
  }

  lemma FlatHead(parts: seq<Part>)
    requires parts != []
    ensures Flat(parts) == parts[0].arg + parts[0].comma + Flat(parts[1..])
    ensures Flat(parts) == parts[0].arg + (parts[0].comma + Flat(parts[1..]))
  {
  }

  function Shift(d: Define, k: int): Define
    requires d.at + k >= 0 && d.first + k >= 0 && d.last + k >= 0 && d.next + k >= 0
  {
    Define(d.at + k, d.key, d.first + k, d.last + k, d.next + k)
  }

  /** The call at token i. */
  function DefineAt(ls: seq<Lexeme>, i: nat): (r: Result<Define, PhpError>)
    requires i < |ls| && IsDefine(ls, i)
    ensures r.Ok? ==> r.value.at == i && r.value.first == i + 4 < r.value.last < r.value.next <= |ls|
  {
    match CallAt(ls[i..])
    case Err(e) => Err(e)
    case Ok(d) => Ok(Shift(d, i))
  }

  /** The recognized calls from token i on. */
  function Walk(ls: seq<Lexeme>, i: nat): Result<seq<Define>, PhpError>
    requires i <= |ls|
    decreases |ls| - i
  {
    if i == |ls| then Ok([])
    else if IsDefine(ls, i) then
      match DefineAt(ls, i)
      case Err(e) => Err(e)
      case Ok(d) =>
        match Walk(ls, d.next)
        case Err(e) => Err(e)
        case Ok(ds) => Ok([d] + ds)
    else Walk(ls, i + 1)
  }

  /** The calls as key and value tokens. */
  datatype Entry = Entry(key: string, value: seq<Lexeme>)

  predicate Within(ls: seq<Lexeme>, d: Define) { d.first < d.last <= |ls| }

  predicate AllWithin(ls: seq<Lexeme>, ds: seq<Define>) {
    forall i :: 0 <= i < |ds| ==> Within(ls, ds[i])
  }

  function EntryOf(ls: seq<Lexeme>, d: Define): Entry
    requires Within(ls, d)
  {
    Entry(d.key, ls[d.first..d.last])
  }

  function Entries(ls: seq<Lexeme>, ds: seq<Define>): (es: seq<Entry>)
    requires forall i :: 0 <= i < |ds| ==> Within(ls, ds[i])
    ensures |es| == |ds|
    ensures forall i :: 0 <= i < |ds| ==> es[i] == EntryOf(ls, ds[i])
  {
    seq(|ds|, i requires 0 <= i < |ds| => EntryOf(ls, ds[i]))
  }

  lemma {:induction false} WalkWithin(ls: seq<Lexeme>, i: nat)
    requires i <= |ls| && Walk(ls, i).Ok?
    ensures var ds := Walk(ls, i).value;
      && (forall k :: 0 <= k < |ds| ==> Within(ls, ds[k]) && i <= ds[k].at && ds[k].first == ds[k].at + 4 && ds[k].last < ds[k].next <= |ls|)
      && (forall j, k :: 0 <= j < k < |ds| ==> ds[j].next <= ds[k].at)
    decreases |ls| - i
  {
    hide IsDefine, CallAt;
    if i < |ls| {
      if IsDefine(ls, i) {
        WalkWithin(ls, DefineAt(ls, i).value.next);
      } else {
        WalkWithin(ls, i + 1);
      }
    }
  }

  // ----- moving a walk -----

  /** Recognizing a token looks back no further than a token that is not `\`. */
  lemma DefineMove(p: seq<Lexeme>, q: seq<Lexeme>, t: seq<Lexeme>, k: nat)
    requires 1 <= k < |t| && (k == 1 ==> t[0].Txt() != "\\")
    ensures IsDefine(p + t, |p| + k) <==> IsDefine(q + t, |q| + k)
    ensures (p + t)[|p| + k..] == (q + t)[|q| + k..]
  {
  }

  function ShiftAll(ds: seq<Define>, k: int): (r: seq<Define>)
    requires forall i :: 0 <= i < |ds| ==> ds[i].at + k >= 0 && ds[i].first + k >= 0 && ds[i].last + k >= 0 && ds[i].next + k >= 0
    ensures |r| == |ds| && forall i :: 0 <= i < |ds| ==> r[i] == Shift(ds[i], k)
  {
    seq(|ds|, i requires 0 <= i < |ds| => Shift(ds[i], k))
  }

  /** Exchanging what comes before a walk only moves it. */
  lemma {:induction false} WalkMove(p: seq<Lexeme>, q: seq<Lexeme>, t: seq<Lexeme>, k: nat)
    requires 1 <= k <= |t| && (k == 1 ==> t[0].Txt() != "\\") && Walk(p + t, |p| + k).Ok?
    ensures Walk(q + t, |q| + k).Ok?
    ensures var ds, es := Walk(p + t, |p| + k).value, Walk(q + t, |q| + k).value;
      && |ds| == |es|
      && forall i :: 0 <= i < |ds| ==> |p| + k <= ds[i].at <= ds[i].first < ds[i].last <= ds[i].next <= |p + t| && es[i] == Shift(ds[i], |q| - |p|)
    decreases |t| - k
  {
    hide IsDefine, CallAt;
    if k < |t| {
      DefineMove(p, q, t, k);
      if IsDefine(p + t, |p| + k) {
        var d := DefineAt(p + t, |p| + k).value;
        WalkMove(p, q, t, d.next - |p|);
      } else {
        WalkMove(p, q, t, k + 1);
      }
    }
  }

  /** The walk from i passes through token t. */
  predicate Passes(ls: seq<Lexeme>, i: nat, t: nat)
    requires i <= |ls|
    decreases |ls| - i
  {
    if i == t then true
    else if i == |ls| then false
    else if IsDefine(ls, i) then DefineAt(ls, i).Ok? && Passes(ls, DefineAt(ls, i).value.next, t)
    else Passes(ls, i + 1, t)
  }

  /** The calls found before the walk reaches t. */
  function WalkTo(ls: seq<Lexeme>, i: nat, t: nat): (ds: seq<Define>)
    requires i <= |ls| && Passes(ls, i, t)
    decreases |ls| - i
  {
    if i == t || i == |ls| then []
    else if IsDefine(ls, i) then [DefineAt(ls, i).value] + WalkTo(ls, DefineAt(ls, i).value.next, t)
    else WalkTo(ls, i + 1, t)
  }

  /** A walk splits where it passes. */
  lemma {:induction false} WalkSplit(ls: seq<Lexeme>, i: nat, t: nat)
    requires i <= |ls| && Passes(ls, i, t)
    ensures i <= t <= |ls|
    ensures Walk(ls, i).Ok? <==> Walk(ls, t).Ok?
    ensures Walk(ls, t).Ok? ==> Walk(ls, i) == Ok(WalkTo(ls, i, t) + Walk(ls, t).value)
    decreases |ls| - i
  {
    hide IsDefine, CallAt;
    if i == t {
      if Walk(ls, t).Ok? { assert [] + Walk(ls, t).value == Walk(ls, t).value; }
    } else if IsDefine(ls, i) {
      var d := DefineAt(ls, i).value;
      WalkSplit(ls, d.next, t);
      if Walk(ls, t).Ok? {
        assert [d] + (WalkTo(ls, d.next, t) + Walk(ls, t).value) == [d] + WalkTo(ls, d.next, t) + Walk(ls, t).value;
      }
    } else {
      WalkSplit(ls, i + 1, t);
    }
  }

  lemma CallLocal(ls: seq<Lexeme>, xs: seq<Lexeme>)
    requires |ls| >= 2 && ls[1].Txt() == "(" && CallAt(ls).Ok?
    requires CallAt(ls).value.next <= |xs| && xs[..CallAt(ls).value.next] == ls[..CallAt(ls).value.next]
    ensures CallAt(xs) == CallAt(ls)
  {
    hide MatchLength, Split, IsGroup;
    var n := MatchLength(ls[1..], []).value;
    var g := ls[1..][..n];
    MatchIsGroup(ls[1..]);
    assert xs[1..] == g + xs[n + 1..] by {
      assert xs == xs[..n + 1] + xs[n + 1..];
      assert xs[..n + 1][1..] == ls[..n + 1][1..] == g;
    }
    GroupMatches(g, xs[n + 1..]);
    assert xs[1] == xs[..n + 1][1] == ls[..n + 1][1] == ls[1];
    assert xs[2..n] == xs[..n + 1][2..n] == ls[2..n];
  }

  /** Exchanging what comes after token t does not change the walk up to t, as long
      as no parenthesis comes to stand at t. */
  lemma {:induction false} PassesPrefix(a: seq<Lexeme>, x: seq<Lexeme>, y: seq<Lexeme>, i: nat)
    requires i <= |a| && Passes(a + x, i, |a|)
    requires (x != [] ==> x[0].Txt() != "(") && (y != [] ==> y[0].Txt() != "(")
    ensures Passes(a + y, i, |a|) && WalkTo(a + y, i, |a|) == WalkTo(a + x, i, |a|)
    decreases |a| - i
  {
    hide FoldsTo, CallAt;
    if i < |a| {
      assert (a + x)[i] == a[i] == (a + y)[i];
      assert i > 0 ==> (a + x)[i - 1] == (a + y)[i - 1];
      assert i > 1 ==> (a + x)[i - 2] == (a + y)[i - 2];
      assert i + 1 < |a| ==> (a + x)[i + 1] == (a + y)[i + 1];
      assert IsDefine(a + x, i) <==> IsDefine(a + y, i) by {
        if i + 1 == |a| {
          assert x != [] ==> (a + x)[i + 1] == x[0];
          assert y != [] ==> (a + y)[i + 1] == y[0];
        }
      }
      if IsDefine(a + x, i) {
        var d := DefineAt(a + x, i).value;
        WalkSplit(a + x, d.next, |a|);
        var n := CallAt((a + x)[i..]).value.next;
        assert (a + x)[i..][..n] == a[i..i + n] == (a + y)[i..][..n];
        CallLocal((a + x)[i..], (a + y)[i..]);
        PassesPrefix(a, x, y, d.next);
      } else {
        PassesPrefix(a, x, y, i + 1);
      }
    }
  }

  // ----- replacing the value of a call -----

  /** The second argument of a call may be exchanged. */
  lemma SetTokens<T>(ls: seq<T>, n: nat, key: seq<T>, value: seq<T>, post: seq<T>, x: seq<T>)
    requires 2 <= n < |ls| && |key| == 2 && ls[2..n] == key + value + post
    ensures 4 + |value| <= |ls| && ls[..4] + x + ls[4 + |value|..] == [ls[0], ls[1]] + (key + x + post) + [ls[n]] + ls[n + 1..]
  {
  }

  lemma CallSet(ls: seq<Lexeme>, x: seq<Lexeme>)
    requires |ls| >= 2 && ls[1].Txt() == "(" && CallAt(ls).Ok? && Neutral(x) && x != []
    ensures var d := CallAt(ls).value;
      CallAt(ls[..4] + x + ls[d.last..]) == Ok(Define(0, d.key, 4, 4 + |x|, d.next + |x| - (d.last - 4)))
  {
    hide MatchLength, Split, IsGroup, Balanced, LiteralKey, ArgLength, Flat;
    var d := CallAt(ls).value;
    var n := MatchLength(ls[1..], []).value;
    var inner := ls[2..n];
    var args := Split(inner).value;
    ArgsFit(inner);
    SplitFlat(inner);
    var args' := args[1 := Part(x, args[1].comma)];
    assert ValidParts(args') by {
      assert forall i :: 0 <= i < |args| ==> ValidPart(args[i]);
    }
    FlatSplit(args');
    FlatTwo(args');
    var inner' := Flat(args');
    var post := args[1].comma + Flat(args[2..]);
    assert args'[2..] == args[2..];
    assert inner' == args[0].arg + args[0].comma + x + post;
    CallGroup(ls, n);
    var xs := [ls[0], ls[1]] + inner' + [ls[n]] + ls[n + 1..];
    SetTokens(ls, n, args[0].arg + args[0].comma, args[1].arg, post, x);
    PartsBalanced(args');
    CallIs(xs, ls[0], ls[1], args', ls[n], ls[n + 1..], d.key);
  }

  lemma FlatTwo(args: seq<Part>)
    requires |args| >= 2
    ensures Flat(args) == args[0].arg + args[0].comma + args[1].arg + (args[1].comma + Flat(args[2..]))
  {
    FlatPair(args[0], args[1], args[2..]);
    assert args == [args[0], args[1]] + args[2..];
  }

  lemma FlatPair(a: Part, b: Part, rest: seq<Part>)
    ensures Flat([a, b] + rest) == a.arg + a.comma + b.arg + (b.comma + Flat(rest))
  {
  }

  lemma CallGroup(ls: seq<Lexeme>, n: nat)
    requires |ls| >= 2 && ls[1].Txt() == "(" && MatchLength(ls[1..], []) == Ok(n)
    ensures 2 <= n < |ls| && ls[n].Txt() == ")"
  {
    hide MatchLength, Balanced;
    MatchIsGroup(ls[1..]);
    var g := ls[1..][..n];
    assert g[|g| - 1] == ls[n];
  }

  /** A call put together from its parts. */
  lemma CallIs(xs: seq<Lexeme>, name: Lexeme, open: Lexeme, args: seq<Part>, close: Lexeme, rest: seq<Lexeme>, key: string)
    requires xs == [name, open] + Flat(args) + [close] + rest
    requires open.Txt() == "(" && close.Txt() == ")" && ValidParts(args) && 2 <= |args| <= 3
    requires |args[0].arg| == 1 && LiteralKey(args[0].arg[0].token) == Ok(key)
    ensures CallAt(xs) == Ok(Define(0, key, 4, 4 + |args[1].arg|, |Flat(args)| + 3))
  {
    hide MatchLength, Split, Balanced, LiteralKey, ArgLength, Flat, ValidParts;
    var inner := Flat(args);
    var g := [open] + inner + [close];
    PartsBalanced(args);
    assert g[1..|g| - 1] == inner;
    GroupMatches(g, rest);
    assert xs[1..] == g + rest;
    FlatSplit(args);
    assert xs[2..|g|] == inner;
  }

  /** The walk passes every call it finds. */
  lemma {:induction false} WalkReaches(ls: seq<Lexeme>, i: nat, k: nat)
    requires i <= |ls| && Walk(ls, i).Ok? && k < |Walk(ls, i).value|
    ensures var ds := Walk(ls, i).value;
      var t := ds[k].at;
      && i <= t < |ls| && Passes(ls, i, t) && WalkTo(ls, i, t) == ds[..k]
      && IsDefine(ls, t) && DefineAt(ls, t) == Ok(ds[k]) && Walk(ls, ds[k].next) == Ok(ds[k + 1..])
    decreases |ls| - i
  {
    hide IsDefine, CallAt;
    var ds := Walk(ls, i).value;
    if !IsDefine(ls, i) {
      WalkReaches(ls, i + 1, k);
    } else if k > 0 {
      var n := DefineAt(ls, i).value.next;
      WalkReaches(ls, n, k - 1);
      assert ds[1..] == Walk(ls, n).value;
      assert ds[..k] == [ds[0]] + ds[1..][..k - 1];
      assert ds[k + 1..] == ds[1..][k..];
    }
  }

  /** The tokens of a call: its name is no parenthesis, and it ends in one. */
  lemma CallTokens(ls: seq<Lexeme>, i: nat)
    requires i < |ls| && IsDefine(ls, i) && DefineAt(ls, i).Ok?
    ensures var d := DefineAt(ls, i).value;
      && i + 1 < |ls| && ls[i].Txt() != "(" && ls[i + 1].Txt() == "(" && ls[d.next - 1].Txt() == ")"
      && ls[d.first - 1].Txt() == "," && |ls[d.last].Txt()| == 1 && Firm(ls[d.last].Txt()[0])
      && Neutral(ls[d.first..d.last])
  {
    hide CallAt, FoldsTo;
    var xs := ls[i..];
    var d := CallAt(xs).value;
    CallInside(xs);
    S.Slice(ls, i, d.first, d.last);
    S.Element(ls, i, d.first - 1);
    S.Element(ls, i, d.last);
    S.Element(ls, i, d.next - 1);
    S.Element(ls, i, 1);
    DefineWord(ls, i);
  }

  lemma DefineWord(ls: seq<Lexeme>, i: nat)
    requires i < |ls| && IsDefine(ls, i)
    ensures i + 1 < |ls| && ls[i].Txt() != "(" && ls[i + 1].Txt() == "("
  {
  }

  /** The same on the tokens from the call on. */
  lemma CallInside(xs: seq<Lexeme>)
    requires |xs| >= 2 && xs[1].Txt() == "(" && CallAt(xs).Ok?
    ensures var d := CallAt(xs).value;
      && xs[d.next - 1].Txt() == ")" && xs[d.first - 1].Txt() == "," && |xs[d.last].Txt()| == 1 && Firm(xs[d.last].Txt()[0])
      && Neutral(xs[d.first..d.last])
  {
    hide MatchLength, Balanced, LiteralKey, ArgLength, Flat, Split, Neutral;
    var n := MatchLength(xs[1..], []).value;
    var d := CallAt(xs).value;
    CallGroup(xs, n);
    ArgsFit(xs[2..n]);
    SplitFlat(xs[2..n]);
    var args := Split(xs[2..n]).value;
    assert ValidPart(args[0]) && ValidPart(args[1]);
    var a, b, c := args[0].arg + args[0].comma, args[1].arg, args[1].comma + Flat(args[2..]);
    CallLayout(xs, n, args[0].arg, args[0].comma, b, c);
    if args[1].comma == [] {
      assert |args| == 2;
      FlatEmptyIs(args[2..]);
    } else {
      assert c[0] == args[1].comma[0];
    }
  }

  lemma CallLayout<T>(xs: seq<T>, n: nat, a: seq<T>, k: seq<T>, b: seq<T>, c: seq<T>)
    requires 2 <= n <= |xs| && xs[2..n] == a + k + b + c && |a| == |k| == 1
    ensures 4 + |b| <= n && xs[4..4 + |b|] == b && xs[3] == k[0]
    ensures if c == [] then 4 + |b| == n else 4 + |b| < |xs| && xs[4 + |b|] == c[0]
  {
    var m := xs[2..n];
    S.SliceIn(xs, 2, n, 2, 2 + |b|);
    S.Middle(a + k, b, c);
    assert m[1] == (a + k)[1] == k[0] && m[1] == xs[3];
    if c != [] { assert m[2 + |b|] == (a + k + b + c)[2 + |b|] == c[0] && m[2 + |b|] == xs[4 + |b|]; }
  }

  lemma FlatEmptyIs(parts: seq<Part>)
    requires parts == []
    ensures Flat(parts) == []
  {
  }

  /** Recognizing a token depends on two tokens before and one after it. */
  lemma DefinePrefix(ls: seq<Lexeme>, xs: seq<Lexeme>, i: nat)
    requires i + 1 < |ls| && i + 1 < |xs| && ls[..i + 2] == xs[..i + 2]
    ensures IsDefine(ls, i) <==> IsDefine(xs, i)
  {
  }

  lemma DefineIs(ls: seq<Lexeme>, i: nat, d: Define)
    requires i < |ls| && IsDefine(ls, i) && d.at == 0
    ensures |ls[i..]| >= 2 && ls[i..][1].Txt() == "("
    ensures DefineAt(ls, i) == Ok(Shift(d, i)) <==> CallAt(ls[i..]) == Ok(d)
  {
    hide CallAt, FoldsTo;
    assert ls[i..][1] == ls[i + 1];
  }

  lemma WalkHere(ls: seq<Lexeme>, i: nat, d: Define, rest: seq<Define>)
    requires i < |ls| && IsDefine(ls, i) && DefineAt(ls, i) == Ok(d) && Walk(ls, d.next) == Ok(rest)
    ensures Walk(ls, i) == Ok([d] + rest)
  {
  }

  predicate Beyond(d: Define, n: nat, m: nat) {
    n <= d.at <= d.first < d.last <= d.next <= m
  }

  /** Replacing the value of call k moves the later calls. */
  lemma SetWalk(ls: seq<Lexeme>, k: nat, x: seq<Lexeme>)
    requires Walk(ls, 0).Ok? && k < |Walk(ls, 0).value| && Neutral(x) && x != []
    ensures var d := Walk(ls, 0).value[k]; d.first < d.last < d.next <= |ls|
    ensures var ds := Walk(ls, 0).value;
      var d, after := ds[k], ds[k + 1..];
      var delta := |x| - (d.last - d.first);
      && (forall i :: 0 <= i < |after| ==> Beyond(after[i], d.next, |ls|))
      && Walk(ls[..d.first] + x + ls[d.last..], 0) ==
        Ok(ds[..k] + [Define(d.at, d.key, d.first, d.first + |x|, d.next + delta)] + ShiftAll(after, delta))
  {
    hide Walk, IsDefine, DefineAt, CallAt, Passes, WalkTo, Neutral, FoldsTo, ShiftAll;
    var ds := Walk(ls, 0).value;
    WalkWithin(ls, 0);
    WalkReaches(ls, 0, k);
    CallTokens(ls, ds[k].at);
    SetRest(ls, ds[k], x);
    var after := ds[k + 1..];
    SetHead(ls, ds[k], x, ds[..k], ShiftAll(after, |x| - (ds[k].last - ds[k].first)));
  }

  lemma SetHead(ls: seq<Lexeme>, d: Define, x: seq<Lexeme>, before: seq<Define>, after: seq<Define>)
    requires d.at < |ls| && Passes(ls, 0, d.at) && WalkTo(ls, 0, d.at) == before
    requires IsDefine(ls, d.at) && DefineAt(ls, d.at) == Ok(d) && Neutral(x) && x != []
    requires d.first < d.last < d.next <= |ls|
    requires Walk(ls[..d.first] + x + ls[d.last..], d.next + |x| - (d.last - d.first)) == Ok(after)
    ensures Walk(ls[..d.first] + x + ls[d.last..], 0) ==
      Ok(before + [Define(d.at, d.key, d.first, d.first + |x|, d.next + |x| - (d.last - d.first))] + after)
  {
    hide Walk, IsDefine, DefineAt, CallAt, Passes, WalkTo, Neutral, FoldsTo;
    SetCallAt(ls, d, x);
    var ls' := ls[..d.first] + x + ls[d.last..];
    var d' := Define(d.at, d.key, d.first, d.first + |x|, d.next + |x| - (d.last - d.first));
    SetBefore(ls, d, x);
    WalkSplit(ls', 0, d.at);
    WalkHere(ls', d.at, d', after);
    S.Assoc(before, [d'], after);
  }

  lemma SetBefore(ls: seq<Lexeme>, d: Define, x: seq<Lexeme>)
    requires d.at < |ls| && Passes(ls, 0, d.at) && IsDefine(ls, d.at) && DefineAt(ls, d.at) == Ok(d)
    ensures d.at < d.first < d.last <= |ls|
    ensures var ls' := ls[..d.first] + x + ls[d.last..]; Passes(ls', 0, d.at) && WalkTo(ls', 0, d.at) == WalkTo(ls, 0, d.at)
  {
    hide Walk, IsDefine, CallAt, Passes, WalkTo, FoldsTo;
    DefineWord(ls, d.at);
    TakeSplice(ls, d.first, d.first, d.last, x);
    SetPrefix(ls, d.at, d.first, ls[..d.first] + x + ls[d.last..]);
  }

  /** The walk behind equal tails. */
  lemma WalkTail(ls: seq<Lexeme>, m: nat, ls': seq<Lexeme>, m': nat)
    requires m < |ls| && m' <= |ls'| && ls[m..] == ls'[m'..] && ls[m].Txt() != "\\" && Walk(ls, m + 1).Ok?
    ensures m' < |ls'|
    ensures var ds := Walk(ls, m + 1).value;
      (forall i :: 0 <= i < |ds| ==> Beyond(ds[i], m + 1, |ls|)) && Walk(ls', m' + 1) == Ok(ShiftAll(ds, m' - m))
  {
    hide Walk, ShiftAll;
    var p, q, t := ls[..m], ls'[..m'], ls[m..];
    assert ls == p + t && ls' == q + t && t[0] == ls[m];
    WalkMove(p, q, t, 1);
    ShiftEach(Walk(ls, m + 1).value, Walk(ls', m' + 1).value, m' - m);
  }

  lemma RestMoved(ls: seq<Lexeme>, m: nat, ls': seq<Lexeme>, m': nat, next: nat, delta: int)
    requires m < |ls| && m' <= |ls'| && ls[m..] == ls'[m'..] && ls[m].Txt() == ")" && next == m + 1 && delta == m' - m && Walk(ls, next).Ok?
    ensures 0 <= next + delta <= |ls'|
    ensures var ds := Walk(ls, next).value;
      (forall i :: 0 <= i < |ds| ==> Beyond(ds[i], next, |ls|)) && Walk(ls', next + delta) == Ok(ShiftAll(ds, delta))
  {
    hide Walk, ShiftAll, Beyond;
    WalkTail(ls, m, ls', m');
  }

  lemma SetRest(ls: seq<Lexeme>, d: Define, x: seq<Lexeme>)
    requires d.first <= d.last < d.next <= |ls| && Walk(ls, d.next).Ok? && ls[d.next - 1].Txt() == ")"
    ensures var ds, delta := Walk(ls, d.next).value, |x| - (d.last - d.first);
      && (forall i :: 0 <= i < |ds| ==> Beyond(ds[i], d.next, |ls|))
      && Walk(ls[..d.first] + x + ls[d.last..], d.next + delta) == Ok(ShiftAll(ds, delta))
  {
    hide Walk, ShiftAll, Beyond;
    var ls', m := ls[..d.first] + x + ls[d.last..], d.next - 1;
    var n: nat := d.first + |x| + (m - d.last);
    assert n <= |ls'| && ls'[n..] == ls[m..] by { S.Spliced(ls, d.first, d.last, x, m); }
    RestMoved(ls, m, ls', n, d.next, |x| - (d.last - d.first));
  }

  lemma SetPrefix(ls: seq<Lexeme>, t: nat, n: nat, ls': seq<Lexeme>)
    requires t < n <= |ls| && n <= |ls'| && ls[..n] == ls'[..n] && Passes(ls, 0, t) && ls[t].Txt() != "("
    ensures Passes(ls', 0, t) && WalkTo(ls', 0, t) == WalkTo(ls, 0, t)
  {
    hide Passes, WalkTo;
    var a := ls[..t];
    assert ls == a + ls[t..];
    assert ls' == a + ls'[t..] by { assert ls'[..t] == ls'[..n][..t]; assert ls[..t] == ls[..n][..t]; }
    assert ls[t] == ls[..n][t] == ls'[t];
    PassesPrefix(a, ls[t..], ls'[t..], 0);
  }

  lemma SetCallAt(ls: seq<Lexeme>, d: Define, x: seq<Lexeme>)
    requires d.at < |ls| && IsDefine(ls, d.at) && DefineAt(ls, d.at) == Ok(d) && Neutral(x) && x != []
    ensures d.first == d.at + 4 < d.last < d.next <= |ls|
    ensures var ls' := ls[..d.first] + x + ls[d.last..];
      && d.at < |ls'| && IsDefine(ls', d.at)
      && DefineAt(ls', d.at) == Ok(Define(d.at, d.key, d.first, d.first + |x|, d.next + |x| - (d.last - d.first)))
  {
    hide CallAt, Neutral, FoldsTo, IsDefine, DefineAt;
    var ls' := ls[..d.first] + x + ls[d.last..];
    var suf := ls[d.at..];
    var c := Shift(d, 0 - d.at);
    assert Shift(c, d.at) == d;
    DefineIs(ls, d.at, c);
    SuffixSplice(ls, d.at, 4, d.last - d.at, x);
    CallSet(suf, x);
    TakeSplice(ls, d.at + 2, d.first, d.last, x);
    DefinePrefix(ls, ls', d.at);
    var next := c.next + |x| - (c.last - 4);
    assert c.last < c.next;
    DefineIs(ls', d.at, Define(0, d.key, 4, 4 + |x|, next));
  }

  lemma TakeSplice<T>(s: seq<T>, n: nat, i: nat, j: nat, x: seq<T>)
    requires n <= i <= j <= |s|
    ensures (s[..i] + x + s[j..])[..n] == s[..n]
  {
  }

  lemma SuffixSplice<T>(s: seq<T>, t: nat, i: nat, j: nat, x: seq<T>)
    requires t + i <= t + j <= |s|
    ensures (s[..t + i] + x + s[t + j..])[t..] == s[t..][..i] + x + s[t..][j..]
  {
  }

  /** Replacing the value of call k changes entry k, and nothing else. */
  lemma SetValue(ls: seq<Lexeme>, k: nat, x: seq<Lexeme>)
    requires Walk(ls, 0).Ok? && k < |Walk(ls, 0).value| && Neutral(x) && x != []
    ensures Within(ls, Walk(ls, 0).value[k])
    ensures var ds := Walk(ls, 0).value;
      var ls' := ls[..ds[k].first] + x + ls[ds[k].last..];
      && Walk(ls', 0).Ok?
      && var ds' := Walk(ls', 0).value;
      && |ds'| == |ds| && ds'[..k] == ds[..k]
      && (forall i :: 0 <= i < |ds| ==> Within(ls, ds[i]) && Within(ls', ds'[i]))
      && Entries(ls', ds') == Entries(ls, ds)[k := Entry(ds[k].key, x)]
  {
    hide IsDefine, CallAt, Walk, Neutral, Within, EntryOf;
    var ds := Walk(ls, 0).value;
    WalkWithin(ls, 0);
    assert AllWithin(ls, ds);
    SetWalk(ls, k, x);
    var ls' := ls[..ds[k].first] + x + ls[ds[k].last..];
    WalkWithin(ls', 0);
    var ds' := Walk(ls', 0).value;
    forall i | 0 <= i < |ds|
      ensures Within(ls, ds[i]) && Within(ls', ds'[i]) && EntryOf(ls', ds'[i]) == if i == k then Entry(ds[k].key, x) else EntryOf(ls, ds[i])
    {
      SetEntryAt(ls, k, x, i);
    }
    assert Entries(ls', ds') == Entries(ls, ds)[k := Entry(ds[k].key, x)];
  }

  /** Call i after the value of call k was replaced. */
  function SetDefine(d: Define, x: seq<Lexeme>): Define
    requires d.first <= d.last <= d.next
  {
    Define(d.at, d.key, d.first, d.first + |x|, d.next - d.last + d.first + |x|)
  }

  lemma SetDefineAt(ls: seq<Lexeme>, k: nat, x: seq<Lexeme>, i: nat)
    requires Walk(ls, 0).Ok? && k < |Walk(ls, 0).value| && i < |Walk(ls, 0).value| && Neutral(x) && x != []
    ensures
      var ds := Walk(ls, 0).value;
      && ds[k].first < ds[k].last <= ds[k].next <= |ls| && ds[i].first < ds[i].last <= |ls|
      && var ls', delta := ls[..ds[k].first] + x + ls[ds[k].last..], |x| - (ds[k].last - ds[k].first);
      && Walk(ls', 0).Ok? && |Walk(ls', 0).value| == |ds|
      && (i < k ==> ds[i].last <= ds[k].first && Walk(ls', 0).value[i] == ds[i])
      && (i == k ==> Walk(ls', 0).value[i] == SetDefine(ds[k], x))
      && (i > k ==> ds[k].last <= ds[i].at <= ds[i].first && ds[i].last <= ds[i].next && Walk(ls', 0).value[i] == Shift(ds[i], delta))
  {
    hide IsDefine, CallAt, Walk, Neutral;
    var ds := Walk(ls, 0).value;
    WalkWithin(ls, 0);
    SetWalk(ls, k, x);
    var ds' := Walk(ls[..ds[k].first] + x + ls[ds[k].last..], 0).value;
    if i < k {
      assert ds'[i] == ds[..k][i] == ds[i];
    } else if i > k {
      var after := ds[k + 1..];
      assert after[i - k - 1] == ds[i];
    }
  }

  /** Entry i after the value of call k was replaced. */
  lemma SetEntryAt(ls: seq<Lexeme>, k: nat, x: seq<Lexeme>, i: nat)
    requires Walk(ls, 0).Ok? && k < |Walk(ls, 0).value| && i < |Walk(ls, 0).value| && Neutral(x) && x != []
    ensures
      var ds := Walk(ls, 0).value;
      && ds[k].first <= ds[k].last <= |ls|
      && var ls' := ls[..ds[k].first] + x + ls[ds[k].last..];
      && Walk(ls', 0).Ok? && |Walk(ls', 0).value| == |ds|
      && var ds' := Walk(ls', 0).value;
        Within(ls, ds[i]) && Within(ls', ds'[i]) && EntryOf(ls', ds'[i]) == if i == k then Entry(ds[k].key, x) else EntryOf(ls, ds[i])
  {
    hide Walk, Neutral, EntryOf, Within;
    SetDefineAt(ls, k, x, i);
    var ds := Walk(ls, 0).value;
    if i < k {
      EntryKept(ls, ds[k], x, ds[i]);
    } else if i > k {
      EntryMoved(ls, ds[k], x, ds[i]);
    } else {
      EntrySet(ls, ds[k], x);
    }
  }

  lemma EntrySet(ls: seq<Lexeme>, d: Define, x: seq<Lexeme>)
    requires d.first < d.last <= d.next && d.last <= |ls| && x != []
    ensures var ls' := ls[..d.first] + x + ls[d.last..];
      Within(ls, d) && Within(ls', SetDefine(d, x)) && EntryOf(ls', SetDefine(d, x)) == Entry(d.key, x)
  {
  }

  lemma EntryKept(ls: seq<Lexeme>, d: Define, x: seq<Lexeme>, c: Define)
    requires c.first < c.last <= d.first <= d.last <= |ls|
    ensures var ls' := ls[..d.first] + x + ls[d.last..]; Within(ls, c) && Within(ls', c) && EntryOf(ls', c) == EntryOf(ls, c)
  {
    SliceKept(ls, d.first, d.last, x, c.first, c.last);
  }

  lemma EntryMoved(ls: seq<Lexeme>, d: Define, x: seq<Lexeme>, c: Define)
    requires d.first <= d.last <= c.at <= c.first < c.last <= c.next && c.last <= |ls|
    ensures var ls', delta := ls[..d.first] + x + ls[d.last..], |x| - (d.last - d.first);
      Within(ls, c) && Within(ls', Shift(c, delta)) && EntryOf(ls', Shift(c, delta)) == EntryOf(ls, c)
  {
  }

  lemma SliceKept<T>(s: seq<T>, i: nat, j: nat, x: seq<T>, a: nat, b: nat)
    requires a <= b <= i <= j <= |s|
    ensures (s[..i] + x + s[j..])[a..b] == s[a..b]
  {
  }

  // ----- inserting calls -----

  function Token(gap: seq<Piece>, text: string): Lexeme { Lexeme(gap, Piece(Symbol, text)) }

  /** `define( 'key', value );` */
  function CallLexemes(gap: seq<Piece>, key: string, value: seq<Piece>): (r: seq<Lexeme>)
    ensures |r| == |value| + 6
  {
    [Lexeme(gap, Piece(Identifier, "define")), Token([], "("), Lexeme(Blanks(" "), Piece(Quoted, SingleQuoted(key))), Token([], ",")]
    + ValueLexemes(Blanks(" "), value) + [Token(Blanks(" "), ")"), Token([], ";")]
  }

  /** A new call: its key and the tokens of its literal. */
  datatype NewCall = NewCall(key: string, value: seq<Piece>)

  predicate ValidCall(n: NewCall) {
    n.value != [] && forall i :: 0 <= i < |n.value| ==> Plain(n.value[i])
  }

  predicate ValidCalls(ns: seq<NewCall>) {
    forall i :: 0 <= i < |ns| ==> ValidCall(ns[i])
  }

  function NewLexemes(gap: seq<Piece>, eol: string, ns: seq<NewCall>): seq<Lexeme>
    decreases |ns|
  {
    if ns == [] then [] else CallLexemes(gap, ns[0].key, ns[0].value) + NewLexemes(Blanks(eol), eol, ns[1..])
  }

  function NewEntries(ns: seq<NewCall>): (es: seq<Entry>)
    ensures |es| == |ns|
    ensures forall i :: 0 <= i < |ns| ==> es[i] == Entry(ns[i].key, ValueLexemes(Blanks(" "), ns[i].value))
  {
    seq(|ns|, i requires 0 <= i < |ns| => Entry(ns[i].key, ValueLexemes(Blanks(" "), ns[i].value)))
  }

  /** A new call is recognized. */
  lemma NewCallAt(gap: seq<Piece>, key: string, value: seq<Piece>, rest: seq<Lexeme>)
    requires value != [] && forall i :: 0 <= i < |value| ==> Plain(value[i])
    ensures CallAt(CallLexemes(gap, key, value) + rest) == Ok(Define(0, key, 4, 4 + |value|, 5 + |value|))
  {
    hide MatchLength, Split, LiteralKey, ArgLength, SingleQuoted, LexPhp, Blanks, Flat, ValueLexemes, CallAt;
    var q := Lexeme(Blanks(" "), Piece(Quoted, SingleQuoted(key)));
    var v := ValueLexemes(Blanks(" "), value);
    QuotedScans(key, "");
    KeyIsLong(q.token);
    SingleNeutral(q);
    PlainNeutral(v);
    NewArgs(q, v);
    var args := [Part([q], [Token([], ",")]), Part(v, [])];
    var xs := CallLexemes(gap, key, value) + rest;
    assert xs == [xs[0], xs[1]] + ([q, Token([], ",")] + v) + [Token(Blanks(" "), ")")] + ([Token([], ";")] + rest);
    CallIs(xs, xs[0], xs[1], args, Token(Blanks(" "), ")"), [Token([], ";")] + rest, key);
  }

  lemma NewArgs(q: Lexeme, v: seq<Lexeme>)
    requires Neutral([q]) && Neutral(v) && v != []
    ensures var args := [Part([q], [Token([], ",")]), Part(v, [])];
      ValidParts(args) && Flat(args) == [q, Token([], ",")] + v
  {
    hide ArgLength;
    var a, b := Part([q], [Token([], ",")]), Part(v, []);
    FlatPair(a, b, []);
    FlatEmptyIs([]);
    assert [a, b] + [] == [a, b];
    assert [q] + [Token([], ",")] == [q, Token([], ",")];
    assert v + ([] + []) == v;
  }

  lemma WalkStep(ls: seq<Lexeme>, i: nat, t: nat)
    requires i < |ls| && i < t && IsDefine(ls, i) && DefineAt(ls, i).Ok? && Passes(ls, DefineAt(ls, i).value.next, t)
    ensures Passes(ls, i, t) && WalkTo(ls, i, t) == [DefineAt(ls, i).value] + WalkTo(ls, DefineAt(ls, i).value.next, t)
  {
  }

  lemma WalkSkip(ls: seq<Lexeme>, i: nat, t: nat)
    requires i < |ls| && i < t && !IsDefine(ls, i) && Passes(ls, i + 1, t)
    ensures Passes(ls, i, t) && WalkTo(ls, i, t) == WalkTo(ls, i + 1, t)
  {
  }

  /** The walk takes the call d at i and goes on at j. */
  ghost predicate Steps(ls: seq<Lexeme>, i: nat, t: nat, d: Define, j: nat)
    requires i <= |ls| && j <= |ls|
  {
    Passes(ls, i, t) && Passes(ls, j, t) && WalkTo(ls, i, t) == [d] + WalkTo(ls, j, t)
  }

  function NewDefine(at: nat, n: NewCall): Define { Define(at, n.key, at + 4, at + 4 + |n.value|, at + 5 + |n.value|) }

  /** A new call in a list: the walk takes it and goes on after its semicolon. */
  lemma NewCallStep(p: seq<Lexeme>, gap: seq<Piece>, n: NewCall, rest: seq<Lexeme>, ls: seq<Lexeme>, t: nat)
    requires ValidCall(n) && !Suppressed(p, |p|) && ls == p + CallLexemes(gap, n.key, n.value) + rest
    requires |p| + 6 + |n.value| <= t && Passes(ls, |p| + 6 + |n.value|, t)
    ensures Steps(ls, |p|, t, NewDefine(|p|, n), |p| + 6 + |n.value|)
    ensures ls[|p| + 4..|p| + 4 + |n.value|] == ValueLexemes(Blanks(" "), n.value)
  {
    hide CallAt, Passes, WalkTo, SingleQuoted, Blanks, ValueLexemes, CallLexemes, IsDefine;
    var c := CallLexemes(gap, n.key, n.value);
    CallShape(gap, n);
    S.Middle(p, c, rest);
    S.SliceIn(ls, |p|, |p| + |c|, 4, 4 + |n.value|);
    NewCallAt(gap, n.key, n.value, rest);
    var k := |p| + 5 + |n.value|;
    assert ls[|p|] == c[0] && ls[|p| + 1] == c[1] && ls[k] == c[5 + |n.value|];
    DefineBehind(p, ls);
    var d := Define(0, n.key, 4, 4 + |n.value|, 5 + |n.value|);
    DefineIs(ls, |p|, d);
    NoDefine(ls, k);
    WalkSkip(ls, k, t);
    WalkStep(ls, |p|, t);
  }

  lemma CallShape(gap: seq<Piece>, n: NewCall)
    ensures var c := CallLexemes(gap, n.key, n.value);
      && c[0].Txt() == "define" && c[1].Txt() == "(" && c[5 + |n.value|].Txt() == ";" && c[4..4 + |n.value|] == ValueLexemes(Blanks(" "), n.value)
  {
  }

  /** The word define, where it is not suppressed. */
  lemma DefineBehind(p: seq<Lexeme>, ls: seq<Lexeme>)
    requires |p| + 1 < |ls| && ls[..|p|] == p && ls[|p|].Txt() == "define" && ls[|p| + 1].Txt() == "(" && !Suppressed(p, |p|)
    ensures IsDefine(ls, |p|)
  {
  }

  lemma NoDefine(ls: seq<Lexeme>, k: nat)
    requires k < |ls| && ls[k].Txt() == ";"
    ensures !IsDefine(ls, k)
  {
  }

  /** From i to t the walk takes exactly these calls. */
  ghost predicate Walked(ls: seq<Lexeme>, i: nat, t: nat, ns: seq<NewCall>)
    requires i <= |ls|
  {
    && Passes(ls, i, t)
    && var ds := WalkTo(ls, i, t);
      |ds| == |ns| && (forall k :: 0 <= k < |ds| ==> Within(ls, ds[k])) && Entries(ls, ds) == NewEntries(ns)
  }

  lemma WalkedCons(ls: seq<Lexeme>, i: nat, j: nat, t: nat, d: Define, n: NewCall, ns: seq<NewCall>)
    requires i <= |ls| && j <= |ls| && Steps(ls, i, t, d, j) && Walked(ls, j, t, ns)
    requires d.first < d.last <= |ls| && d.key == n.key && ls[d.first..d.last] == ValueLexemes(Blanks(" "), n.value)
    ensures Walked(ls, i, t, [n] + ns)
  {
    hide Passes, WalkTo, Blanks, ValueLexemes;
    var ds, ds1 := WalkTo(ls, i, t), WalkTo(ls, j, t);
    assert forall k :: 0 < k < |ds| ==> ds[k] == ds1[k - 1];
    forall k | 0 <= k < |ds|
      ensures Within(ls, ds[k]) && EntryOf(ls, ds[k]) == NewEntries([n] + ns)[k]
    {
      if k > 0 { assert Entries(ls, ds1)[k - 1] == NewEntries(ns)[k - 1]; }
    }
  }

  lemma {:induction false} NewCallsWalk(p: seq<Lexeme>, gap: seq<Piece>, eol: string, ns: seq<NewCall>, rest: seq<Lexeme>)
    requires ValidCalls(ns) && !Suppressed(p, |p|)
    ensures var x := NewLexemes(gap, eol, ns);
      && Walked(p + x + rest, |p|, |p + x|, ns)
      && (ns != [] ==> !Suppressed(p + x, |p + x|))
    decreases |ns|
  {
    hide CallAt, Passes, WalkTo, CallLexemes, Blanks, ValueLexemes, Walked, Steps, Suppressed;
    var x := NewLexemes(gap, eol, ns);
    var ls := p + x + rest;
    if ns == [] {
      NoneWalked(ls, |p|);
    } else {
      var n := ns[0];
      var c := CallLexemes(gap, n.key, n.value);
      var x1 := NewLexemes(Blanks(eol), eol, ns[1..]);
      CallEnds(p, gap, n);
      S.Assoc(p, c, x1);
      S.Assoc(p + c, x1, rest);
      NewCallsWalk(p + c, Blanks(eol), eol, ns[1..], rest);
      WalkedPasses(ls, |p + c|, |p + x|, ns[1..]);
      NewCallStep(p, gap, n, x1 + rest, ls, |p + x|);
      WalkedCons(ls, |p|, |p + c|, |p + x|, NewDefine(|p|, n), n, ns[1..]);
      assert [n] + ns[1..] == ns;
      if |ns| == 1 { assert x1 == [] && p + x == p + c; }
    }
  }

  lemma NoneWalked(ls: seq<Lexeme>, i: nat)
    requires i <= |ls|
    ensures Walked(ls, i, i, [])
  {
  }

  lemma WalkedPasses(ls: seq<Lexeme>, i: nat, t: nat, ns: seq<NewCall>)
    requires i <= |ls| && Walked(ls, i, t, ns)
    ensures Passes(ls, i, t)
  {
  }

  lemma PassesHere(ls: seq<Lexeme>, i: nat)
    requires i <= |ls|
    ensures Passes(ls, i, i) && WalkTo(ls, i, i) == []
  {
  }

  lemma CallLength(gap: seq<Piece>, n: NewCall)
    ensures |CallLexemes(gap, n.key, n.value)| == 6 + |n.value|
  {
  }

  lemma CallEnds(p: seq<Lexeme>, gap: seq<Piece>, n: NewCall)
    ensures var c := CallLexemes(gap, n.key, n.value); c != [] && !Suppressed(p + c, |p + c|)
  {
  }

  /** The walk does not see gaps. */
  lemma {:induction false} WalkGap(ls: seq<Lexeme>, xs: seq<Lexeme>, c: nat, i: nat)
    requires c < |ls| == |xs| && c <= i <= |ls| && ls[..c] == xs[..c] && ls[c + 1..] == xs[c + 1..] && ls[c].token == xs[c].token
    ensures Walk(xs, i) == Walk(ls, i)
    decreases |ls| - i
  {
    hide CallAt, FoldsTo;
    if i < |ls| {
      assert forall j :: 0 <= j < c ==> ls[j] == ls[..c][j] == xs[j];
      assert forall j :: c < j < |ls| ==> ls[j] == ls[c + 1..][j - c - 1] && xs[j] == xs[c + 1..][j - c - 1];
      assert IsDefine(ls, i) <==> IsDefine(xs, i);
      if IsDefine(ls, i) {
        TailOfTail(ls, i, c);
        TailOfTail(xs, i, c);
        CallTail(ls[i..], xs[i..]);
        if DefineAt(ls, i).Ok? { WalkGap(ls, xs, c, DefineAt(ls, i).value.next); }
      } else {
        WalkGap(ls, xs, c, i + 1);
      }
    }
  }

  lemma TailOfTail<T>(s: seq<T>, i: nat, c: nat)
    requires c <= i < |s|
    ensures s[i..][1..] == s[c + 1..][i - c..]
  {
  }

  lemma CallTail(a: seq<Lexeme>, b: seq<Lexeme>)
    requires |a| >= 2 && |a| == |b| && a[1..] == b[1..] && a[1].Txt() == "("
    ensures b[1].Txt() == "(" && CallAt(a) == CallAt(b)
  {
    hide MatchLength, Split, LiteralKey;
    assert a[1] == a[1..][0] && b[1] == b[1..][0];
    forall n | 2 <= n <= |a|
      ensures a[2..n] == b[2..n]
    {
      SliceOfTail(a, n);
      SliceOfTail(b, n);
    }
  }

  lemma SliceOfTail<T>(s: seq<T>, n: nat)
    requires 2 <= n <= |s|
    ensures s[2..n] == s[1..][1..n - 1]
  {
    var a, b := s[2..n], s[1..][1..n - 1];
    assert forall k :: 0 <= k < n - 2 ==> a[k] == s[k + 2] == b[k];
  }

  /** The rest of the document after an insertion before token c. */
  function After(ls: seq<Lexeme>, c: nat, gap: seq<Piece>): seq<Lexeme>
    requires c <= |ls|
  {
    if c == |ls| then [] else [Lexeme(gap, ls[c].token)] + ls[c + 1..]
  }

  /** Calls inserted before token c do not change what the tokens after it are: where
      one was suppressed, it is not the word define. */
  predicate Insertable(ls: seq<Lexeme>, c: nat) {
    c <= |ls| && (c < |ls| ==> ls[c].Txt() != "(" && ls[c].Txt() != "\\" && (Suppressed(ls, c) ==> !FoldsTo(ls[c].Txt(), "define")))
  }

  /** The walk goes on behind an insertion as it did before. */
  lemma AfterWalk(ls: seq<Lexeme>, c: nat, x: seq<Lexeme>, gap: seq<Piece>)
    requires Insertable(ls, c) && Walk(ls, c).Ok? && x != [] && !Suppressed(ls[..c] + x, c + |x|)
    ensures var ls' := ls[..c] + x + After(ls, c, gap);
      var ds := Walk(ls, c).value;
      && (forall i :: 0 <= i < |ds| ==> Beyond(ds[i], c, |ls|))
      && Walk(ls', c + |x|) == Ok(ShiftAll(ds, |x|))
      && (forall i :: 0 <= i < |ds| ==> Within(ls', Shift(ds[i], |x|)) && EntryOf(ls', Shift(ds[i], |x|)) == EntryOf(ls, ds[i]))
  {
    hide IsDefine, CallAt, Suppressed, ShiftAll, Walk, FoldsTo, EntryOf, After;
    if c == |ls| {
      AfterWalkEnd(ls, x, gap);
    } else {
      var t := After(ls, c, gap);
      var xs := ls[..c] + t;
      AfterTail(ls, c, gap);
      WalkGap(ls, xs, c, c);
      SuppressedPrefix(ls[..c], ls, c);
      SuppressedPrefix(ls[..c], xs, c);
      InsertMove(ls, xs, c, x, t);
      WalkWithin(ls, c);
      forall i | 0 <= i < |Walk(ls, c).value|
        ensures Within(ls[..c] + x + t, Shift(Walk(ls, c).value[i], |x|)) && EntryOf(ls[..c] + x + t, Shift(Walk(ls, c).value[i], |x|)) == EntryOf(ls, Walk(ls, c).value[i])
      {
        EntryAfter(ls, c, x, t, Walk(ls, c).value[i]);
      }
    }
  }

  lemma AfterTail(ls: seq<Lexeme>, c: nat, gap: seq<Piece>)
    requires c < |ls|
    ensures var t := After(ls, c, gap);
      var xs := ls[..c] + t;
      |t| == |ls| - c && |xs| == |ls| && t[1..] == ls[c + 1..] && xs[c + 1..] == ls[c + 1..] && xs[..c] == ls[..c] && xs[c].token == ls[c].token
  {
  }

  lemma AfterWalkEnd(ls: seq<Lexeme>, x: seq<Lexeme>, gap: seq<Piece>)
    ensures Walk(ls, |ls|) == Ok([]) && After(ls, |ls|, gap) == [] && Walk(ls[..|ls|] + x + [], |ls| + |x|) == Ok(ShiftAll([], |x|))
  {
    hide IsDefine, CallAt, ShiftAll, Walk;
    WalkEnd(ls);
    WalkEnd(ls[..|ls|] + x + []);
    ShiftEach([], [], |x|);
  }

  lemma EntryAfter(ls: seq<Lexeme>, c: nat, x: seq<Lexeme>, t: seq<Lexeme>, d: Define)
    requires c < |ls| && |t| == |ls| - c && t[1..] == ls[c + 1..] && Beyond(d, c, |ls|) && d.first == d.at + 4
    ensures Within(ls, d) && Within(ls[..c] + x + t, Shift(d, |x|))
    ensures EntryOf(ls[..c] + x + t, Shift(d, |x|)) == EntryOf(ls, d)
  {
  }

  lemma WalkEnd(ls: seq<Lexeme>)
    ensures Walk(ls, |ls|) == Ok([])
  {
  }

  /** The walk from tokens that agree from here on. */
  lemma MoveAt(xs: seq<Lexeme>, c: nat, ls': seq<Lexeme>, n: nat)
    requires c < |xs| && c <= n < |ls'| && xs[c..] == ls'[n..] && Walk(xs, c).Ok? && xs[c].Txt() != "\\"
    requires IsDefine(xs, c) <==> IsDefine(ls', n)
    requires IsDefine(xs, c) && DefineAt(xs, c).Ok? ==> DefineAt(ls', n) == Ok(Shift(DefineAt(xs, c).value, n - c))
    ensures Walk(ls', n) == Ok(ShiftAll(Walk(xs, c).value, n - c))
  {
    hide CallAt, IsDefine, Walk, ShiftAll, DefineAt, FoldsTo;
    WalkOne(xs, c);
    if IsDefine(xs, c) {
      var d := DefineAt(xs, c).value;
      TailsMeet(xs, c, ls', n, d.next - 1);
      MoveCall(xs, c, ls', n, d, d.next - 1 - c + n);
    } else {
      WalkTail(xs, c, ls', n);
      WalkElse(ls', n);
    }
  }

  lemma MoveCall(xs: seq<Lexeme>, c: nat, ls': seq<Lexeme>, n: nat, d: Define, m': nat)
    requires c < |xs| && c <= n < |ls'| && IsDefine(xs, c) && IsDefine(ls', n) && DefineAt(xs, c) == Ok(d)
    requires DefineAt(ls', n) == Ok(Shift(d, n - c)) && Walk(xs, c).Ok?
    requires m' == d.next - 1 - c + n && m' <= |ls'| && xs[d.next - 1..] == ls'[m'..]
    ensures Walk(ls', n) == Ok(ShiftAll(Walk(xs, c).value, n - c))
  {
    hide CallAt, IsDefine, Walk, ShiftAll, DefineAt, FoldsTo;
    WalkOne(xs, c);
    CallTokens(xs, c);
    WalkTail(xs, d.next - 1, ls', m');
    var rest := Walk(xs, d.next).value;
    WalkHere(ls', n, Shift(d, n - c), ShiftAll(rest, n - c));
    ShiftCons(d, rest, n - c);
  }

  lemma InsertMove(ls: seq<Lexeme>, xs: seq<Lexeme>, c: nat, x: seq<Lexeme>, t: seq<Lexeme>)
    requires c < |ls| == |xs| && xs == ls[..c] + t && xs[c].token == ls[c].token
    requires Insertable(xs, c) && Walk(xs, c).Ok? && x != [] && !Suppressed(ls[..c] + x, c + |x|)
    ensures var ds := Walk(xs, c).value;
      && (forall i :: 0 <= i < |ds| ==> Beyond(ds[i], c, |xs|))
      && Walk(ls[..c] + x + t, c + |x|) == Ok(ShiftAll(ds, |x|))
  {
    hide CallAt, FoldsTo, IsDefine, Walk, Suppressed, ShiftAll, DefineAt;
    WalkWithin(xs, c);
    S.Middle(ls[..c], x, t);
    S.Assoc(ls[..c], x, t);
    assert xs[c..] == t;
    InsertDefine(xs, ls[..c] + x + t, ls[..c], ls[..c] + x, t);
    MoveAt(xs, c, ls[..c] + x + t, c + |x|);
  }

  lemma TailsMeet<T>(s: seq<T>, i: nat, s': seq<T>, i': nat, m: nat)
    requires i <= m <= |s| && i' <= |s'| && s[i..] == s'[i'..]
    ensures m - i + i' <= |s'| && s[m..] == s'[m - i + i'..]
  {
  }

  lemma ShiftCons(d: Define, rest: seq<Define>, k: nat)
    ensures ShiftAll([d] + rest, k) == [Shift(d, k)] + ShiftAll(rest, k)
  {
  }

  lemma ShiftEach(ds: seq<Define>, es: seq<Define>, k: int)
    requires forall i :: 0 <= i < |ds| ==> ds[i].at + k >= 0 && ds[i].first + k >= 0 && ds[i].last + k >= 0 && ds[i].next + k >= 0
    requires |ds| == |es| && forall i :: 0 <= i < |ds| ==> es[i] == Shift(ds[i], k)
    ensures es == ShiftAll(ds, k)
  {
  }

  lemma WalkOne(ls: seq<Lexeme>, i: nat)
    requires i < |ls| && Walk(ls, i).Ok?
    ensures if IsDefine(ls, i) then
        DefineAt(ls, i).Ok? && Walk(ls, DefineAt(ls, i).value.next).Ok?
        && Walk(ls, i).value == [DefineAt(ls, i).value] + Walk(ls, DefineAt(ls, i).value.next).value
      else Walk(ls, i) == Walk(ls, i + 1)
  {
  }

  lemma WalkElse(ls: seq<Lexeme>, i: nat)
    requires i < |ls| && !IsDefine(ls, i)
    ensures Walk(ls, i) == Walk(ls, i + 1)
  {
  }

  lemma InsertDefine(xs: seq<Lexeme>, ls': seq<Lexeme>, p: seq<Lexeme>, q: seq<Lexeme>, t: seq<Lexeme>)
    requires xs == p + t && ls' == q + t && t != []
    requires !Suppressed(q, |q|) && (Suppressed(xs, |p|) ==> !FoldsTo(t[0].Txt(), "define"))
    ensures IsDefine(xs, |p|) <==> IsDefine(ls', |q|)
    ensures IsDefine(xs, |p|) ==>
      match DefineAt(xs, |p|) case Err(_) => true case Ok(d) => d.next >= |p| && DefineAt(ls', |q|) == Ok(Define(d.at - |p| + |q|, d.key, d.first - |p| + |q|, d.last - |p| + |q|, d.next - |p| + |q|))
  {
    hide CallAt, FoldsTo;
    assert xs[|p|..] == t == ls'[|q|..];
    assert xs[|p|] == t[0] == ls'[|q|];
    assert 1 < |t| ==> xs[|p| + 1] == t[1] == ls'[|q| + 1];
    SuppressedPrefix(q, ls', |q|);
  }

  lemma SuppressedPrefix(a: seq<Lexeme>, b: seq<Lexeme>, i: nat)
    requires i <= |a| && a <= b
    ensures Suppressed(a, i) <==> Suppressed(b, i)
  {
  }

  /** The walk steps over tokens that start no call. */
  lemma {:induction false} WalkOver(ls: seq<Lexeme>, a: nat, b: nat)
    requires a <= b <= |ls| && forall i :: a <= i < b ==> !IsDefine(ls, i)
    ensures Passes(ls, a, b) && WalkTo(ls, a, b) == []
    decreases b - a
  {
    hide IsDefine, CallAt;
    if a == b {
      PassesHere(ls, a);
    } else {
      WalkOver(ls, a + 1, b);
      WalkSkip(ls, a, b);
    }
  }

  /** A new call behind a token that suppresses it is no call. */
  lemma HiddenCall(p: seq<Lexeme>, gap: seq<Piece>, n: NewCall, rest: seq<Lexeme>)
    requires ValidCall(n) && Suppressed(p, |p|)
    ensures var c := CallLexemes(gap, n.key, n.value);
      Passes(p + c + rest, |p|, |p + c|) && WalkTo(p + c + rest, |p|, |p + c|) == []
  {
    hide SingleQuoted, Blanks, Passes, WalkTo;
    var c := CallLexemes(gap, n.key, n.value);
    var ls := p + c + rest;
    CallLength(gap, n);
    assert forall i :: 0 <= i < |c| ==> ls[|p| + i] == c[i];
    forall i | |p| <= i < |p + c|
      ensures !IsDefine(ls, i)
    {
      var j := i - |p|;
      if j == 0 {
        SuppressedPrefix(p, ls, |p|);
      } else if 1 < j < |c| - 1 {
        assert ls[i + 1] == c[j + 1];
        CallInner(gap, n, j + 1);
      }
    }
    WalkOver(ls, |p|, |p + c|);
  }

  lemma CallInner(gap: seq<Piece>, n: NewCall, j: nat)
    requires ValidCall(n) && 2 < j < |CallLexemes(gap, n.key, n.value)|
    ensures CallLexemes(gap, n.key, n.value)[j].Txt() != "("
  {
  }

  lemma {:induction false} WalkThrough(ls: seq<Lexeme>, i: nat, j: nat, t: nat)
    requires i <= |ls| && j <= t && Passes(ls, i, j) && j <= |ls| && Passes(ls, j, t)
    ensures Passes(ls, i, t) && WalkTo(ls, i, t) == WalkTo(ls, i, j) + WalkTo(ls, j, t)
    decreases |ls| - i
  {
    hide IsDefine, CallAt;
    WalkSplit(ls, i, j);
    if i == j {
      PassesHere(ls, i);
      assert [] + WalkTo(ls, j, t) == WalkTo(ls, j, t);
    } else if IsDefine(ls, i) {
      var d := DefineAt(ls, i).value;
      WalkThrough(ls, d.next, j, t);
      assert [d] + (WalkTo(ls, d.next, j) + WalkTo(ls, j, t)) == [d] + WalkTo(ls, d.next, j) + WalkTo(ls, j, t);
    } else {
      WalkThrough(ls, i + 1, j, t);
    }
  }

  /** The new calls that are recognized: all but a first one that is suppressed. */
  function Found(ls: seq<Lexeme>, c: nat, ns: seq<NewCall>): seq<NewCall>
    requires c <= |ls| && ns != []
  {
    if Suppressed(ls, c) then ns[1..] else ns
  }

  lemma WalkedThrough(ls: seq<Lexeme>, i: nat, j: nat, t: nat, ns: seq<NewCall>)
    requires i <= |ls| && j <= |ls| && j <= t && Passes(ls, i, j) && WalkTo(ls, i, j) == [] && Walked(ls, j, t, ns)
    ensures Walked(ls, i, t, ns)
  {
    hide Passes, WalkTo;
    WalkThrough(ls, i, j, t);
    assert [] + WalkTo(ls, j, t) == WalkTo(ls, j, t);
  }

  lemma FoundWalk(p: seq<Lexeme>, gap: seq<Piece>, eol: string, ns: seq<NewCall>, rest: seq<Lexeme>)
    requires ValidCalls(ns) && ns != []
    ensures var x := NewLexemes(gap, eol, ns);
      Walked(p + x + rest, |p|, |p + x|, Found(p, |p|, ns)) && !Suppressed(p + x, |p + x|)
  {
    hide CallAt, Passes, WalkTo, CallLexemes, Blanks, ValueLexemes, Walked, Suppressed, IsDefine;
    if Suppressed(p, |p|) {
      var n := ns[0];
      var c, x1 := CallLexemes(gap, n.key, n.value), NewLexemes(Blanks(eol), eol, ns[1..]);
      var x := NewLexemes(gap, eol, ns);
      CallEnds(p, gap, n);
      S.Assoc(p, c, x1);
      S.Assoc(p + c, x1, rest);
      NewCallsWalk(p + c, Blanks(eol), eol, ns[1..], rest);
      HiddenCall(p, gap, n, x1 + rest);
      WalkedThrough(p + x + rest, |p|, |p + c|, |p + x|, ns[1..]);
      if |ns| == 1 { assert x1 == [] && p + x == p + c; }
    } else {
      NewCallsWalk(p, gap, eol, ns, rest);
    }
  }

  /** Inserting calls where the walk passes adds exactly the entries of those that are
      recognized. */
  lemma InsertCalls(ls: seq<Lexeme>, c: nat, gap: seq<Piece>, eol: string, ns: seq<NewCall>, after: seq<Piece>)
    requires Walk(ls, 0).Ok? && c <= |ls| && Passes(ls, 0, c) && Insertable(ls, c) && ValidCalls(ns) && ns != []
    ensures var ls' := ls[..c] + NewLexemes(gap, eol, ns) + After(ls, c, after);
      var ds, m := Walk(ls, 0).value, |WalkTo(ls, 0, c)|;
      && (forall i :: 0 <= i < |ds| ==> Within(ls, ds[i]))
      && m <= |ds| && Walk(ls', 0).Ok?
      && var ds' := Walk(ls', 0).value;
      && (forall i :: 0 <= i < |ds'| ==> Within(ls', ds'[i]))
      && m <= |ds'| && ds'[..m] == ds[..m]
      && Entries(ls', ds') == Entries(ls, ds)[..m] + NewEntries(Found(ls, c, ns)) + Entries(ls, ds)[m..]
  {
    hide IsDefine, CallAt, Passes, WalkTo, Suppressed, Walk, FoldsTo, NewLexemes, CallLexemes, After;
    var x := NewLexemes(gap, eol, ns);
    var a, t := ls[..c], After(ls, c, after);
    var ls' := a + x + t;
    WalkWithin(ls, 0);
    WalkSplit(ls, 0, c);
    assert ls == a + ls[c..];
    SuppressedPrefix(a, ls, c);
    FoundWalk(a, gap, eol, ns, t);
    NewNonempty(gap, eol, ns);
    AfterWalk(ls, c, x, after);
    InsertPrefix(ls, c, x, t);
    WalkSplit(ls', 0, c);
    WalkSplit(ls', c, c + |x|);
    WalkWithin(ls', 0);
    WalkToBefore(ls, 0, c);
    var ds0, ds1, ds2 := WalkTo(ls, 0, c), WalkTo(ls', c, c + |x|), Walk(ls, c).value;
    var ds := Walk(ls, 0).value;
    assert ds == ds0 + ds2;
    assert Walk(ls', 0) == Ok(ds0 + (ds1 + ShiftAll(ds2, |x|)));
    InsertEntries(ls, ls', ds0, ds1, ds2, |x|, c, Found(ls, c, ns));
  }

  lemma InsertEntries(ls: seq<Lexeme>, ls': seq<Lexeme>, ds0: seq<Define>, ds1: seq<Define>, ds2: seq<Define>, n: nat, c: nat, ns: seq<NewCall>)
    requires c <= |ls| && c <= |ls'| && ls[..c] == ls'[..c]
    requires forall i :: 0 <= i < |ds0| ==> ds0[i].first < ds0[i].last <= c
    requires forall i :: 0 <= i < |ds1| ==> Within(ls', ds1[i])
    requires Entries(ls', ds1) == NewEntries(ns)
    requires forall i :: 0 <= i < |ds2| ==> Within(ls, ds2[i]) && Within(ls', Shift(ds2[i], n)) && EntryOf(ls', Shift(ds2[i], n)) == EntryOf(ls, ds2[i])
    ensures var ds, ds' := ds0 + ds2, ds0 + (ds1 + ShiftAll(ds2, n));
      var m := |ds0|;
      && (forall i :: 0 <= i < |ds| ==> Within(ls, ds[i]))
      && (forall i :: 0 <= i < |ds'| ==> Within(ls', ds'[i]))
      && ds'[..m] == ds[..m]
      && Entries(ls', ds') == Entries(ls, ds)[..m] + NewEntries(ns) + Entries(ls, ds)[m..]
  {
    var ds, ds' := ds0 + ds2, ds0 + (ds1 + ShiftAll(ds2, n));
    var m := |ds0|;
    forall i | 0 <= i < m
      ensures Within(ls, ds0[i]) && Within(ls', ds0[i]) && EntryOf(ls', ds0[i]) == EntryOf(ls, ds0[i])
    {
      assert ls[ds0[i].first..ds0[i].last] == ls[..c][ds0[i].first..ds0[i].last];
      assert ls'[ds0[i].first..ds0[i].last] == ls'[..c][ds0[i].first..ds0[i].last];
    }
    assert forall i :: 0 <= i < |ds1| ==> EntryOf(ls', ds1[i]) == Entries(ls', ds1)[i];
    assert Entries(ls', ds') == Entries(ls, ds)[..m] + NewEntries(ns) + Entries(ls, ds)[m..];
  }

  lemma {:induction false} WalkToBefore(ls: seq<Lexeme>, i: nat, t: nat)
    requires i <= |ls| && Passes(ls, i, t)
    ensures forall k :: 0 <= k < |WalkTo(ls, i, t)| ==>
      WalkTo(ls, i, t)[k].first < WalkTo(ls, i, t)[k].last < WalkTo(ls, i, t)[k].next <= t
    decreases |ls| - i
  {
    hide IsDefine, CallAt;
    if i < t && i < |ls| {
      if IsDefine(ls, i) {
        var n := DefineAt(ls, i).value.next;
        WalkSplit(ls, n, t);
        WalkToBefore(ls, n, t);
      } else {
        WalkToBefore(ls, i + 1, t);
      }
    } else {
      WalkSplit(ls, i, t);
    }
  }

  lemma InsertPrefix(ls: seq<Lexeme>, c: nat, x: seq<Lexeme>, t: seq<Lexeme>)
    requires c <= |ls| && Passes(ls, 0, c) && Insertable(ls, c) && x != [] && x[0].Txt() != "("
    ensures Passes(ls[..c] + x + t, 0, c) && WalkTo(ls[..c] + x + t, 0, c) == WalkTo(ls, 0, c)
  {
    hide Passes, WalkTo;
    var a := ls[..c];
    assert ls == a + ls[c..] && a + x + t == a + (x + t);
    PassesPrefix(a, ls[c..], x + t, 0);
  }

  lemma NewNonempty(gap: seq<Piece>, eol: string, ns: seq<NewCall>)
    requires ns != []
    ensures NewLexemes(gap, eol, ns) != [] && NewLexemes(gap, eol, ns)[0] == Lexeme(gap, Piece(Identifier, "define"))
    ensures NewLexemes(gap, eol, ns)[0].Txt() != "("
  {
  }
}
