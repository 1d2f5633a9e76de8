/** The outline of a source: its tokens, with every recognized call as one item.

    What is done to the values of calls does not show in the outline, and new calls
    show as items of their own, so it tells where they stand. */
module PhpOutline {
  import opened Text
  import opened PhpLexer
  import S = Sequences
  import opened PhpTokens
  import opened PhpSplice
  import opened PhpEntries
  import opened PhpDefines

  datatype Item = Tok(piece: Piece) | Call(key: string)

  function Toks(ls: seq<Lexeme>): (r: seq<Item>)
    ensures |r| == |ls| && forall i :: 0 <= i < |ls| ==> r[i] == Tok(ls[i].token)
  {
    seq(|ls|, i requires 0 <= i < |ls| => Tok(ls[i].token))
  }

  /** The calls follow one another between the two tokens. */
  predicate Chained(ds: seq<Define>, from: nat, to: nat)
    decreases |ds|
  {
    from <= to &&
    (ds != [] ==> from <= ds[0].at <= ds[0].first <= ds[0].last <= ds[0].next && Chained(ds[1..], ds[0].next, to))
  }

  /** The outline of the tokens between the two. */
  function Out(ls: seq<Lexeme>, ds: seq<Define>, from: nat, to: nat): seq<Item>
    requires Chained(ds, from, to) && to <= |ls|
    decreases |ds|
  {
    if ds == [] then Toks(ls[from..to])
    else
      ChainedEnd(ds, from, to);
      Toks(ls[from..ds[0].at]) + [Call(ds[0].key)] + Out(ls, ds[1..], ds[0].next, to)
  }

  lemma {:induction false} ChainedEnd(ds: seq<Define>, from: nat, to: nat)
    requires Chained(ds, from, to)
    ensures from <= to && (ds != [] ==> ds[0].at <= ds[0].next <= to)
    decreases |ds|
  {
    if ds != [] { ChainedEnd(ds[1..], ds[0].next, to); }
  }

  lemma {:induction false} WalkChained(ls: seq<Lexeme>, i: nat)
    requires i <= |ls| && Walk(ls, i).Ok?
    ensures Chained(Walk(ls, i).value, i, |ls|)
    decreases |ls| - i
  {
    hide IsDefine, CallAt;
    if i < |ls| {
      if IsDefine(ls, i) {
        WalkChained(ls, DefineAt(ls, i).value.next);
      } else {
        WalkChained(ls, i + 1);
        ChainedFrom(Walk(ls, i + 1).value, i, i + 1, |ls|);
      }
    }
  }

  lemma ChainedFrom(ds: seq<Define>, from: nat, mid: nat, to: nat)
    requires from <= mid && Chained(ds, mid, to)
    ensures Chained(ds, from, to)
  {
  }

  lemma {:induction false} PassedChained(ls: seq<Lexeme>, i: nat, t: nat)
    requires i <= |ls| && Passes(ls, i, t)
    ensures Chained(WalkTo(ls, i, t), i, t)
    decreases |ls| - i
  {
    hide IsDefine, CallAt;
    WalkSplit(ls, i, t);
    if i < t {
      if IsDefine(ls, i) {
        PassedChained(ls, DefineAt(ls, i).value.next, t);
      } else {
        PassedChained(ls, i + 1, t);
        ChainedFrom(WalkTo(ls, i + 1, t), i, i + 1, t);
      }
    }
  }

  lemma OutHead(ls: seq<Lexeme>, ds: seq<Define>, from: nat, to: nat)
    requires Chained(ds, from, to) && to <= |ls|
    ensures from <= to
    ensures ds == [] ==> Out(ls, ds, from, to) == Toks(ls[from..to])
    ensures ds != [] ==>
      && from <= ds[0].at <= ds[0].next <= to && Chained(ds[1..], ds[0].next, to)
      && Out(ls, ds, from, to) == Toks(ls[from..ds[0].at]) + ([Call(ds[0].key)] + Out(ls, ds[1..], ds[0].next, to))
  {
    ChainedEnd(ds, from, to);
  }

  lemma ToksSplit(ls: seq<Lexeme>, from: nat, mid: nat, to: nat)
    requires from <= mid <= to <= |ls|
    ensures Toks(ls[from..to]) == Toks(ls[from..mid]) + Toks(ls[mid..to])
  {
    assert ls[from..to] == ls[from..mid] + ls[mid..to];
  }

  lemma OutFrom(ls: seq<Lexeme>, ds: seq<Define>, from: nat, mid: nat, to: nat)
    requires from <= mid && Chained(ds, mid, to) && to <= |ls|
    ensures Chained(ds, from, to) && mid <= to && Out(ls, ds, from, to) == Toks(ls[from..mid]) + Out(ls, ds, mid, to)
  {
    hide Out, Toks;
    ChainedFrom(ds, from, mid, to);
    OutHead(ls, ds, mid, to);
    OutHead(ls, ds, from, to);
    var e := if ds == [] then to else ds[0].at;
    ToksSplit(ls, from, mid, e);
    if ds != [] { S.Assoc(Toks(ls[from..mid]), Toks(ls[mid..e]), [Call(ds[0].key)] + Out(ls, ds[1..], ds[0].next, to)); }
  }

  /** An outline can be cut between two calls. */
  lemma {:induction false} OutConcat(ls: seq<Lexeme>, a: seq<Define>, b: seq<Define>, from: nat, mid: nat, to: nat)
    requires Chained(a, from, mid) && Chained(b, mid, to) && mid <= to <= |ls|
    ensures Chained(a + b, from, to) && Out(ls, a + b, from, to) == Out(ls, a, from, mid) + Out(ls, b, mid, to)
    decreases |a|
  {
    hide Out, Toks;
    if a == [] {
      assert a + b == b;
      OutHead(ls, a, from, mid);
      OutFrom(ls, b, from, mid, to);
    } else {
      OutHead(ls, a, from, mid);
      assert (a + b)[1..] == a[1..] + b;
      OutConcat(ls, a[1..], b, a[0].next, mid, to);
      OutHead(ls, a + b, from, to);
      Regroup(Toks(ls[from..a[0].at]), [Call(a[0].key)], Out(ls, a[1..], a[0].next, mid), Out(ls, b, mid, to));
    }
  }

  lemma Regroup<T>(a: seq<T>, b: seq<T>, c: seq<T>, d: seq<T>)
    ensures a + (b + (c + d)) == a + (b + c) + d
  {
  }

  /** The calls lie behind a token. */
  predicate AllBehind(ds: seq<Define>, from: nat) {
    forall i :: 0 <= i < |ds| ==> from <= ds[i].at <= ds[i].first <= ds[i].last <= ds[i].next
  }

  lemma {:induction false} ChainedBehind(ds: seq<Define>, from: nat, to: nat)
    requires Chained(ds, from, to)
    ensures AllBehind(ds, from)
    decreases |ds|
  {
    if ds != [] {
      ChainedBehind(ds[1..], ds[0].next, to);
      assert forall i :: 0 < i < |ds| ==> ds[i] == ds[1..][i - 1];
    }
  }

  lemma ShiftRest(ds: seq<Define>, from: nat, k: int)
    requires ds != [] && AllBehind(ds, from) && from + k >= 0
    ensures AllBehind(ds[1..], from) && ShiftAll(ds, k)[1..] == ShiftAll(ds[1..], k) && ShiftAll(ds, k)[0] == Shift(ds[0], k)
  {
  }

  lemma {:induction false} ChainedShift(ds: seq<Define>, from: nat, to: nat, k: int)
    requires Chained(ds, from, to) && AllBehind(ds, from) && from + k >= 0
    ensures Chained(ShiftAll(ds, k), from + k, to + k)
    decreases |ds|
  {
    hide ShiftAll, AllBehind;
    ChainedBehind(ds, from, to);
    if ds != [] {
      ChainedBehind(ds[1..], ds[0].next, to);
      ShiftRest(ds, from, k);
      ChainedShift(ds[1..], ds[0].next, to, k);
    } else {
      NoneShift(k);
    }
  }

  lemma NoneShift(k: int)
    ensures ShiftAll([], k) == []
  {
  }

  /** The tokens between the two stand in ls' too, k tokens further. */
  predicate Moved(ls: seq<Lexeme>, ls': seq<Lexeme>, from: nat, to: nat, k: int) {
    from <= to <= |ls| && 0 <= from + k && to + k <= |ls'| && forall j :: from <= j < to ==> ls'[j + k].token == ls[j].token
  }

  lemma MovedFits(ls: seq<Lexeme>, ls': seq<Lexeme>, from: nat, to: nat, k: int)
    requires Moved(ls, ls', from, to, k)
    ensures from <= to <= |ls| && 0 <= from + k && to + k <= |ls'|
  {
  }

  lemma MovedNone(ls: seq<Lexeme>, ls': seq<Lexeme>, from: nat, to: nat)
    requires from <= to <= |ls| && to <= |ls'| && ls[..to] == ls'[..to]
    ensures Moved(ls, ls', from, to, 0)
  {
    forall j | from <= j < to
      ensures ls'[j + 0].token == ls[j].token
    {
      assert ls'[j] == ls'[..to][j] == ls[..to][j] == ls[j];
    }
  }

  lemma MovedPart(ls: seq<Lexeme>, ls': seq<Lexeme>, from: nat, to: nat, k: int, a: nat, b: nat)
    requires Moved(ls, ls', from, to, k) && from <= a <= b <= to
    ensures Moved(ls, ls', a, b, k)
  {
  }

  lemma SameToks(ls: seq<Lexeme>, ls': seq<Lexeme>, from: nat, to: nat, k: int)
    requires Moved(ls, ls', from, to, k)
    ensures Toks(ls'[from + k..to + k]) == Toks(ls[from..to])
  {
  }

  /** The same tokens and calls elsewhere have the same outline. */
  lemma {:induction false} OutShift(ls: seq<Lexeme>, ls': seq<Lexeme>, ds: seq<Define>, from: nat, to: nat, k: int)
    requires Chained(ds, from, to) && Moved(ls, ls', from, to, k)
    ensures AllBehind(ds, from) && Chained(ShiftAll(ds, k), from + k, to + k)
    ensures Out(ls', ShiftAll(ds, k), from + k, to + k) == Out(ls, ds, from, to)
    decreases |ds|
  {
    hide ShiftAll, AllBehind, Toks, Out, Moved;
    MovedFits(ls, ls', from, to, k);
    ChainedBehind(ds, from, to);
    ChainedShift(ds, from, to, k);
    OutHead(ls, ds, from, to);
    OutHead(ls', ShiftAll(ds, k), from + k, to + k);
    if ds == [] {
      NoneShift(k);
      SameToks(ls, ls', from, to, k);
    } else {
      var d := ds[0];
      ShiftRest(ds, from, k);
      MovedPart(ls, ls', from, to, k, d.next, to);
      MovedPart(ls, ls', from, to, k, from, d.at);
      OutShift(ls, ls', ds[1..], d.next, to, k);
      SameToks(ls, ls', from, d.at, k);
    }
  }

  lemma OutSame(ls: seq<Lexeme>, ls': seq<Lexeme>, ds: seq<Define>, from: nat, to: nat)
    requires Chained(ds, from, to) && to <= |ls| && to <= |ls'| && ls[..to] == ls'[..to]
    ensures Out(ls', ds, from, to) == Out(ls, ds, from, to)
  {
    hide Out, Chained, Moved, Toks;
    ChainedEnd(ds, from, to);
    MovedNone(ls, ls', from, to);
    OutShift(ls, ls', ds, from, to, 0);
    assert ShiftAll(ds, 0) == ds;
  }

  lemma OneCall(ls: seq<Lexeme>, d: Define)
    requires d.at <= d.first <= d.last <= d.next <= |ls|
    ensures Chained([d], d.at, d.next) && Out(ls, [d], d.at, d.next) == [Call(d.key)]
  {
    assert [d][1..] == [];
    assert Toks(ls[d.at..d.at]) == [] && Toks(ls[d.next..d.next]) == [];
  }

  /** The outline of all tokens. */
  function Outline(ls: seq<Lexeme>): seq<Item>
    requires Walk(ls, 0).Ok?
  {
    WalkChained(ls, 0);
    Out(ls, Walk(ls, 0).value, 0, |ls|)
  }

  /** How much of the outline stands before token c. */
  function Ahead(ls: seq<Lexeme>, c: nat): nat
    requires c <= |ls| && Passes(ls, 0, c)
  {
    PassedChained(ls, 0, c);
    |Out(ls, WalkTo(ls, 0, c), 0, c)|
  }

  lemma OutlineSplit(ls: seq<Lexeme>, c: nat)
    requires Walk(ls, 0).Ok? && c <= |ls| && Passes(ls, 0, c)
    ensures Walk(ls, c).Ok? && Chained(WalkTo(ls, 0, c), 0, c) && Chained(Walk(ls, c).value, c, |ls|)
    ensures Outline(ls) == Out(ls, WalkTo(ls, 0, c), 0, c) + Out(ls, Walk(ls, c).value, c, |ls|)
    ensures Ahead(ls, c) <= |Outline(ls)|
    ensures Outline(ls)[..Ahead(ls, c)] == Out(ls, WalkTo(ls, 0, c), 0, c)
    ensures Outline(ls)[Ahead(ls, c)..] == Out(ls, Walk(ls, c).value, c, |ls|)
  {
    hide Walk, Passes, WalkTo;
    WalkSplit(ls, 0, c);
    PassedChained(ls, 0, c);
    WalkChained(ls, c);
    OutConcat(ls, WalkTo(ls, 0, c), Walk(ls, c).value, 0, c, |ls|);
  }

  lemma AheadSame(ls: seq<Lexeme>, ls': seq<Lexeme>, c: nat)
    requires c <= |ls| && c <= |ls'| && ls'[..c] == ls[..c] && Passes(ls, 0, c) && Passes(ls', 0, c) && WalkTo(ls', 0, c) == WalkTo(ls, 0, c)
    ensures Ahead(ls', c) == Ahead(ls, c)
  {
    hide Passes, WalkTo, Out;
    PassedChained(ls, 0, c);
    OutSame(ls, ls', WalkTo(ls, 0, c), 0, c);
  }

  // ----- values do not show -----

  lemma SetOutline(ls: seq<Lexeme>, k: nat, x: seq<Lexeme>)
    requires Walk(ls, 0).Ok? && k < |Walk(ls, 0).value| && Neutral(x) && x != []
    ensures Within(ls, Walk(ls, 0).value[k])
    ensures var d := Walk(ls, 0).value[k];
      var ls' := ls[..d.first] + x + ls[d.last..];
      Walk(ls', 0).Ok? && Outline(ls') == Outline(ls)
  {
    hide Walk, Passes, WalkTo, Neutral, ShiftAll, IsDefine, Outline, Out, Chained, Moved, AllBehind, DefineAt, Beyond;
    var ds := Walk(ls, 0).value;
    var d, after := ds[k], ds[k + 1..];
    WalkWithin(ls, 0);
    SetWalk(ls, k, x);
    WalkReaches(ls, 0, k);
    PassedChained(ls, 0, d.at);
    WalkChained(ls, d.next);
    ChainedBehind(after, d.next, |ls|);
    assert ds == ds[..k] + [d] + after;
    var ls' := SetTail(ls, d, x);
    var delta := |x| - (d.last - d.first);
    MovedOutline(ls, ls', ds[..k], d, Define(d.at, d.key, d.first, d.first + |x|, d.next + delta), after, delta);
  }

  /** One call changes its length. */
  lemma MovedOutline(ls: seq<Lexeme>, ls': seq<Lexeme>, a: seq<Define>, d: Define, d': Define, b: seq<Define>, k: int)
    requires d.at <= d.first <= d.last <= d.next <= |ls| && Chained(a, 0, d.at) && Chained(b, d.next, |ls|) && d.next + k >= 0
    requires d'.at == d.at <= d'.first <= d'.last <= d'.next == d.next + k && d'.key == d.key
    requires |ls'| == |ls| + k && d.at <= |ls'| && ls'[..d.at] == ls[..d.at] && Moved(ls, ls', d.next, |ls|, k)
    requires AllBehind(b, d.next) && Walk(ls, 0) == Ok(a + [d] + b) && Walk(ls', 0) == Ok(a + [d'] + ShiftAll(b, k))
    ensures Outline(ls') == Outline(ls)
  {
    hide Walk, ShiftAll, Out, Chained, AllBehind, Toks, Moved;
    OutSame(ls, ls', a, 0, d.at);
    ThreeOut(ls, a, d, b);
    BehindOut(ls, ls', b, d.next, k);
    ThreeOut(ls', a, d', ShiftAll(b, k));
  }

  lemma BehindOut(ls: seq<Lexeme>, ls': seq<Lexeme>, b: seq<Define>, from: nat, k: int)
    requires Moved(ls, ls', from, |ls|, k) && Chained(b, from, |ls|) && AllBehind(b, from) && |ls'| == |ls| + k
    ensures Chained(ShiftAll(b, k), from + k, |ls'|) && Out(ls', ShiftAll(b, k), from + k, |ls'|) == Out(ls, b, from, |ls|)
  {
    hide ShiftAll, Out, Chained, AllBehind, Toks, Moved;
    OutShift(ls, ls', b, from, |ls|, k);
  }

  lemma SetTail(ls: seq<Lexeme>, d: Define, x: seq<Lexeme>) returns (ls': seq<Lexeme>)
    requires d.at <= d.first <= d.last <= d.next <= |ls|
    ensures ls' == ls[..d.first] + x + ls[d.last..]
    ensures var delta := |x| - (d.last - d.first);
      d.at <= |ls'| && ls'[..d.at] == ls[..d.at] && |ls'| == |ls| + delta && Moved(ls, ls', d.next, |ls|, delta)
  {
    ls' := ls[..d.first] + x + ls[d.last..];
  }

  lemma ThreeOut(ls: seq<Lexeme>, a: seq<Define>, d: Define, b: seq<Define>)
    requires Chained(a, 0, d.at) && d.at <= d.first <= d.last <= d.next && Chained(b, d.next, |ls|)
    ensures d.next <= |ls| && Chained(a + [d] + b, 0, |ls|)
    ensures Out(ls, a + [d] + b, 0, |ls|) == Out(ls, a, 0, d.at) + [Call(d.key)] + Out(ls, b, d.next, |ls|)
  {
    ChainedEnd(b, d.next, |ls|);
    OneCall(ls, d);
    OutConcat(ls, a, [d], 0, d.at, d.next);
    OutConcat(ls, a + [d], b, 0, d.next, |ls|);
  }

  // ----- new calls -----

  /** A new call and its semicolon. */
  function NewItems(ns: seq<NewCall>): (r: seq<Item>)
    ensures |r| == 2 * |ns|
  {
    if ns == [] then [] else [Call(ns[0].key), Tok(Piece(Symbol, ";"))] + NewItems(ns[1..])
  }

  lemma {:induction false} NewOutline(p: seq<Lexeme>, gap: seq<Piece>, eol: string, ns: seq<NewCall>, rest: seq<Lexeme>)
    requires ValidCalls(ns) && !Suppressed(p, |p|)
    ensures var x := NewLexemes(gap, eol, ns);
      var ls := p + x + rest;
      && Passes(ls, |p|, |p + x|) && Chained(WalkTo(ls, |p|, |p + x|), |p|, |p + x|)
      && Out(ls, WalkTo(ls, |p|, |p + x|), |p|, |p + x|) == NewItems(ns)
    decreases |ns|
  {
    hide CallAt, Passes, WalkTo, CallLexemes, Blanks, ValueLexemes, Walked, Steps, Suppressed, Out, Chained;
    var x := NewLexemes(gap, eol, ns);
    var ls := p + x + rest;
    NewCallsWalk(p, gap, eol, ns, rest);
    WalkedPasses(ls, |p|, |p + x|, ns);
    PassedChained(ls, |p|, |p + x|);
    if ns == [] {
      PassesHere(ls, |p|);
      NoneOut(ls, |p|);
    } else {
      var n := ns[0];
      var c := CallLexemes(gap, n.key, n.value);
      var x1 := NewLexemes(Blanks(eol), eol, ns[1..]);
      CallEnds(p, gap, n);
      S.Assoc(p, c, x1);
      S.Assoc(p + c, x1, rest);
      NewOutline(p + c, Blanks(eol), eol, ns[1..], rest);
      NewCallStep(p, gap, n, x1 + rest, ls, |p + x|);
      StepOutline(ls, |p|, |p + x|, NewDefine(|p|, n), |p + c|);
      CallShape(gap, n);
      assert ls[|p + c| - 1] == c[|c| - 1];
      SemicolonPiece(gap, n);
    }
  }

  lemma NoneOut(ls: seq<Lexeme>, i: nat)
    requires i <= |ls|
    ensures Chained([], i, i) && Out(ls, [], i, i) == []
  {
  }

  lemma SemicolonPiece(gap: seq<Piece>, n: NewCall)
    ensures CallLexemes(gap, n.key, n.value)[|n.value| + 5].token == Piece(Symbol, ";")
  {
  }

  lemma StepOutline(ls: seq<Lexeme>, i: nat, t: nat, d: Define, j: nat)
    requires i <= |ls| && j <= |ls| && t <= |ls| && Steps(ls, i, t, d, j) && i == d.at && d.at <= d.first <= d.last <= d.next && j == d.next + 1
    requires Chained(WalkTo(ls, i, t), i, t) && Chained(WalkTo(ls, j, t), j, t)
    ensures Out(ls, WalkTo(ls, i, t), i, t) == [Call(d.key), Tok(ls[d.next].token)] + Out(ls, WalkTo(ls, j, t), j, t)
  {
    hide Passes, WalkTo, Out, Toks, Chained;
    var rest := WalkTo(ls, j, t);
    OneMore(ls, d, rest, j, t);
  }

  lemma OneMore(ls: seq<Lexeme>, d: Define, rest: seq<Define>, j: nat, t: nat)
    requires t <= |ls| && d.at <= d.first <= d.last <= d.next && j == d.next + 1 && Chained(rest, j, t)
    ensures Chained([d] + rest, d.at, t) && d.next < |ls|
    ensures Out(ls, [d] + rest, d.at, t) == [Call(d.key), Tok(ls[d.next].token)] + Out(ls, rest, j, t)
  {
    hide Out, Toks;
    ChainedEnd(rest, j, t);
    OutFrom(ls, rest, d.next, j, t);
    assert ([d] + rest)[1..] == rest;
    OutHead(ls, [d] + rest, d.at, t);
    ToksOne(ls, d.at, d.next);
  }

  lemma ToksOne(ls: seq<Lexeme>, i: nat, n: nat)
    requires i <= |ls| && n < |ls|
    ensures Toks(ls[i..i]) == [] && Toks(ls[n..n + 1]) == [Tok(ls[n].token)]
  {
  }

  /** Inserted calls show in the outline where they were inserted. */
  lemma InsertOutline(ls: seq<Lexeme>, c: nat, gap: seq<Piece>, eol: string, ns: seq<NewCall>, after: seq<Piece>)
    requires Walk(ls, 0).Ok? && c <= |ls| && Passes(ls, 0, c) && Insertable(ls, c) && ValidCalls(ns) && ns != []
    requires !Suppressed(ls, c)
    ensures var ls' := ls[..c] + NewLexemes(gap, eol, ns) + PhpDefines.After(ls, c, after);
      var n := Ahead(ls, c);
      Walk(ls', 0).Ok? && n <= |Outline(ls)| && Outline(ls') == Outline(ls)[..n] + NewItems(ns) + Outline(ls)[n..]
  {
    hide *;
    var x := NewLexemes(gap, eol, ns);
    var a, t := ls[..c], PhpDefines.After(ls, c, after);
    var ls' := a + x + t;
    InsertCalls(ls, c, gap, eol, ns, after);
    WalkSplit(ls, 0, c);
    assert ls == a + ls[c..];
    SuppressedPrefix(a, ls, c);
    NewNonempty(gap, eol, ns);
    NewCallsWalk(a, gap, eol, ns, t);
    AfterWalk(ls, c, x, after);
    InsertPrefix(ls, c, x, t);
    NewOutline(a, gap, eol, ns, t);
    AfterTokens(ls, c, x, after);
    WalkChained(ls, c);
    ChainedBehind(Walk(ls, c).value, c, |ls|);
    InsertedOutline(ls, c, ls', c + |x|, ns);
  }

  /** Between token c and token e of the new tokens stand new calls. */
  lemma InsertedOutline(ls: seq<Lexeme>, c: nat, ls': seq<Lexeme>, e: nat, ns: seq<NewCall>)
    requires c <= |ls| && c <= e <= |ls'| && |ls'| - e == |ls| - c && Walk(ls, 0).Ok? && Walk(ls', 0).Ok? && Walk(ls, c).Ok?
    requires Passes(ls, 0, c) && Passes(ls', 0, c) && WalkTo(ls', 0, c) == WalkTo(ls, 0, c) && ls'[..c] == ls[..c]
    requires Passes(ls', c, e) && Chained(WalkTo(ls', c, e), c, e) && Out(ls', WalkTo(ls', c, e), c, e) == NewItems(ns)
    requires Chained(Walk(ls, c).value, c, |ls|) && AllBehind(Walk(ls, c).value, c) && Walk(ls', e) == Ok(ShiftAll(Walk(ls, c).value, e - c))
    requires Moved(ls, ls', c, |ls|, e - c)
    ensures var n := Ahead(ls, c); n <= |Outline(ls)| && Outline(ls') == Outline(ls)[..n] + NewItems(ns) + Outline(ls)[n..]
  {
    hide Walk, Passes, WalkTo, Out, Chained, AllBehind, ShiftAll, NewItems, Outline, Ahead, Moved;
    OutlineSplit(ls, c);
    PassesBoth(ls', c, e);
    OutlineSplit(ls', e);
    OutShift(ls, ls', Walk(ls, c).value, c, |ls|, e - c);
    OutSame(ls, ls', WalkTo(ls, 0, c), 0, c);
  }

  lemma PassesBoth(ls: seq<Lexeme>, c: nat, e: nat)
    requires c <= e <= |ls| && Passes(ls, 0, c) && Passes(ls, c, e)
    ensures Passes(ls, 0, e) && Chained(WalkTo(ls, 0, c), 0, c) && Chained(WalkTo(ls, c, e), c, e) && Chained(WalkTo(ls, 0, e), 0, e)
    ensures Out(ls, WalkTo(ls, 0, e), 0, e) == Out(ls, WalkTo(ls, 0, c), 0, c) + Out(ls, WalkTo(ls, c, e), c, e)
  {
    hide Passes, WalkTo;
    WalkThrough(ls, 0, c, e);
    PassedChained(ls, 0, c);
    PassedChained(ls, c, e);
    PassedChained(ls, 0, e);
    OutConcat(ls, WalkTo(ls, 0, c), WalkTo(ls, c, e), 0, c, e);
  }

  lemma AfterTokens(ls: seq<Lexeme>, c: nat, x: seq<Lexeme>, gap: seq<Piece>)
    requires c <= |ls|
    ensures var ls' := ls[..c] + x + PhpDefines.After(ls, c, gap);
      |ls'| == |ls| + |x| && ls'[..c] == ls[..c] && Moved(ls, ls', c, |ls|, |x|)
  {
    var post := PhpDefines.After(ls, c, gap);
    assert |post| == |ls| - c && forall i :: 0 < i < |post| ==> post[i] == ls[c + i];
  }
}
