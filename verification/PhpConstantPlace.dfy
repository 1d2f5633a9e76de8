/** Where patchPHPConstants puts new calls, told by the outline of the source: before
    the first call that defines the anchor, or else before the first closing tag or
    bootstrap include, or else at the end. */
module PhpConstantPlace {
  import opened Text
  import opened PhpLexer
  import S = Sequences
  import opened PhpTokens
  import opened PhpSplice
  import opened PhpArrayPatch
  import opened PhpDefines
  import opened PhpConstants
  import opened PhpConstantText
  import opened PhpConstantPatch
  import opened PhpConstantLaws
  import opened PhpConstantRuns
  import opened PhpOutline

  // ----- words -----

  /** t lower-cases to the word, given in both cases. */
  predicate LowersTo(t: string, lower: string, upper: string) {
    |t| == |lower| == |upper| && forall i :: 0 <= i < |t| ==> t[i] == lower[i] || t[i] == upper[i] || (t[i] == '\U{0130}' && lower[i] == 'i')
  }

  predicate Bootstrap(t: string) {
    || LowersTo(t, "require", "REQUIRE") || LowersTo(t, "require_once", "REQUIRE_ONCE")
    || LowersTo(t, "include", "INCLUDE") || LowersTo(t, "include_once", "INCLUDE_ONCE")
  }

  lemma LowerSpelled(t: string, lower: string, upper: string)
    requires |lower| == |upper|
    requires forall i :: 0 <= i < |lower| ==> (lower[i] == '_' && upper[i] == '_') || ('a' <= lower[i] <= 'z' && lower[i] != 'k' && upper[i] as int == lower[i] as int - 32)
    ensures Lower(t) == lower <==> LowersTo(t, lower, upper)
  {
    if |t| == |lower| {
      assert forall i :: 0 <= i < |t| ==> (LowerChar(t[i]) == lower[i] <==> t[i] == lower[i] || t[i] == upper[i] || (t[i] == '\U{0130}' && lower[i] == 'i'));
      if Lower(t) == lower { assert forall i :: 0 <= i < |t| ==> Lower(t)[i] == lower[i]; }
    }
  }

  lemma BootstrapSpelled(t: string)
    ensures IncludeWord(t) <==> Bootstrap(t)
  {
    hide Lower, LowersTo;
    LowerSpelled(t, "require", "REQUIRE");
    LowerSpelled(t, "require_once", "REQUIRE_ONCE");
    LowerSpelled(t, "include", "INCLUDE");
    LowerSpelled(t, "include_once", "INCLUDE_ONCE");
  }

  // ----- places in an outline -----

  /** How many tokens are this text. */
  function Occurs(o: seq<Item>, text: string): nat {
    if o == [] then 0 else (if o[0].Tok? && o[0].piece.text == text then 1 else 0) + Occurs(o[1..], text)
  }

  /** Outside braces, when depth are open before. */
  predicate OutsideFrom(o: seq<Item>, n: nat, depth: int)
    requires n <= |o|
  {
    depth + Occurs(o[..n], "{") == Occurs(o[..n], "}")
  }

  /** A closing tag or a bootstrap include, outside braces. */
  predicate StopFrom(o: seq<Item>, n: nat, depth: int) {
    n < |o| && o[n].Tok? && OutsideFrom(o, n, depth) && (o[n].piece.kind == Close || Bootstrap(o[n].piece.text))
  }

  /** A call that defines the anchor, outside braces. */
  predicate AnchorFrom(o: seq<Item>, anchor: string, n: nat, depth: int) {
    n < |o| && o[n] == Call(anchor) && OutsideFrom(o, n, depth)
  }

  predicate Stop(o: seq<Item>, n: nat) { StopFrom(o, n, 0) }

  predicate AnchorCall(o: seq<Item>, anchor: string, n: nat) { AnchorFrom(o, anchor, n, 0) }

  /** Where new calls belong. */
  ghost predicate Place(o: seq<Item>, anchor: string, n: nat) {
    if exists i :: AnchorCall(o, anchor, i) then AnchorCall(o, anchor, n) && forall i :: 0 <= i < n ==> !AnchorCall(o, anchor, i)
    else if exists i :: Stop(o, i) then Stop(o, n) && forall i :: 0 <= i < n ==> !Stop(o, i)
    else n == |o|
  }

  function Step(x: Item): int { if x.Tok? then BraceStep(x.piece.text) else 0 }

  lemma OutsideNext(x: Item, o: seq<Item>, n: nat, depth: int)
    requires n <= |o|
    ensures OutsideFrom([x] + o, n + 1, depth) <==> OutsideFrom(o, n, depth + Step(x))
    ensures OutsideFrom([x] + o, 0, depth) <==> depth == 0
  {
    assert ([x] + o)[..n + 1] == [x] + o[..n];
    assert ([x] + o[..n])[1..] == o[..n];
    assert ([x] + o)[..0] == [];
  }

  /** The first place behind x is one further than the first place of the rest. */
  lemma StopNext(x: Item, o: seq<Item>, depth: int)
    ensures forall n: nat :: n > 0 ==> (StopFrom([x] + o, n, depth) <==> StopFrom(o, n - 1, depth + Step(x)))
    ensures StopFrom([x] + o, 0, depth) <==> x.Tok? && depth == 0 && (x.piece.kind == Close || Bootstrap(x.piece.text))
  {
    hide OutsideFrom, Bootstrap, Step;
    OutsideNext(x, o, 0, depth);
    forall n: nat | n > 0
      ensures StopFrom([x] + o, n, depth) <==> StopFrom(o, n - 1, depth + Step(x))
    {
      if n - 1 < |o| { OutsideNext(x, o, n - 1, depth); }
    }
  }

  lemma AnchorNext(x: Item, o: seq<Item>, anchor: string, depth: int)
    ensures forall n: nat :: n > 0 ==> (AnchorFrom([x] + o, anchor, n, depth) <==> AnchorFrom(o, anchor, n - 1, depth + Step(x)))
    ensures AnchorFrom([x] + o, anchor, 0, depth) <==> x == Call(anchor) && depth == 0
  {
    hide OutsideFrom, Step;
    OutsideNext(x, o, 0, depth);
    forall n: nat | n > 0
      ensures AnchorFrom([x] + o, anchor, n, depth) <==> AnchorFrom(o, anchor, n - 1, depth + Step(x))
    {
      if n - 1 < |o| { OutsideNext(x, o, n - 1, depth); }
    }
  }

  // ----- along the walk -----

  /** The outline from token i on. */
  function From(ls: seq<Lexeme>, i: nat): seq<Item>
    requires i <= |ls| && Walk(ls, i).Ok?
  {
    WalkChained(ls, i);
    Out(ls, Walk(ls, i).value, i, |ls|)
  }

  /** The outline between two steps of the walk. */
  function Between(ls: seq<Lexeme>, i: nat, t: nat): seq<Item>
    requires i <= |ls| && t <= |ls| && Passes(ls, i, t)
  {
    PassedChained(ls, i, t);
    Out(ls, WalkTo(ls, i, t), i, t)
  }

  /** The first item at token i, and where the walk goes on. */
  function ItemAt(ls: seq<Lexeme>, i: nat): (r: (Item, nat))
    requires i < |ls| && Walk(ls, i).Ok?
    ensures i < r.1 <= |ls| && Walk(ls, r.1).Ok?
  {
    WalkOne(ls, i);
    if IsDefine(ls, i) then (Call(DefineAt(ls, i).value.key), DefineAt(ls, i).value.next) else (Tok(ls[i].token), i + 1)
  }

  lemma FromNext(ls: seq<Lexeme>, i: nat)
    requires i < |ls| && Walk(ls, i).Ok?
    ensures var (x, j) := ItemAt(ls, i); From(ls, i) == [x] + From(ls, j)
  {
    hide Walk, IsDefine, DefineAt, Out, Toks;
    WalkOne(ls, i);
    WalkChained(ls, i);
    var (x, j) := ItemAt(ls, i);
    WalkChained(ls, j);
    if IsDefine(ls, i) {
      OutHead(ls, Walk(ls, i).value, i, |ls|);
      ToksNone(ls, i);
    } else {
      OutFrom(ls, Walk(ls, j).value, i, j, |ls|);
      ToksOne(ls, i, i);
    }
  }

  lemma ToksNone(ls: seq<Lexeme>, i: nat)
    requires i <= |ls|
    ensures Toks(ls[i..i]) == []
  {
  }

  lemma BetweenNext(ls: seq<Lexeme>, i: nat, t: nat)
    requires i < t <= |ls| && Walk(ls, i).Ok? && ItemAt(ls, i).1 <= t && Passes(ls, ItemAt(ls, i).1, t)
    ensures Passes(ls, i, t) && |Between(ls, i, t)| == 1 + |Between(ls, ItemAt(ls, i).1, t)|
  {
    hide Walk, IsDefine, CallAt, Out, Toks, Passes, WalkTo;
    WalkOne(ls, i);
    var (x, j) := ItemAt(ls, i);
    PassedChained(ls, j, t);
    if IsDefine(ls, i) {
      WalkStep(ls, i, t);
      PassedChained(ls, i, t);
      OutHead(ls, WalkTo(ls, i, t), i, t);
      ToksNone(ls, i);
    } else {
      WalkSkip(ls, i, t);
      OutFrom(ls, WalkTo(ls, j, t), i, j, t);
      ToksOne(ls, i, i);
    }
  }

  lemma BetweenNone(ls: seq<Lexeme>, i: nat)
    requires i <= |ls|
    ensures Passes(ls, i, i) && Between(ls, i, i) == []
  {
    PassesHere(ls, i);
    NoneOut(ls, i);
  }

  /** Closing tags are no calls. */
  predicate ClosesApart(ls: seq<Lexeme>) {
    forall i :: 0 <= i < |ls| && ls[i].token.kind == Close ==> ls[i].Txt() == "?>"
  }

  /** The fallback is the first stop. */
  lemma {:induction false} FallbackStops(ls: seq<Lexeme>, i: nat, depth: int)
    requires i <= |ls| && Walk(ls, i).Ok? && ClosesApart(ls)
    ensures match Fallback(ls, i, depth)
      case None => forall n :: !StopFrom(From(ls, i), n, depth)
      case Some(t) =>
        && i <= t < |ls| && Passes(ls, i, t) && StopFrom(From(ls, i), |Between(ls, i, t)|, depth)
        && forall n :: 0 <= n < |Between(ls, i, t)| ==> !StopFrom(From(ls, i), n, depth)
    decreases |ls| - i
  {
    hide Walk, IsDefine, CallAt, Passes, IncludeWord, Bootstrap, Between, From, StopFrom;
    if i == |ls| {
      FromEnd(ls);
    } else {
      var n := depth + BraceStep(ls[i].Txt());
      var (x, j) := ItemAt(ls, i);
      FromNext(ls, i);
      StopNext(x, From(ls, j), depth);
      BootstrapSpelled(ls[i].Txt());
      WalkOne(ls, i);
      StopHere(ls, i);
      if n == 0 && (ls[i].token.kind == Close || IncludeWord(ls[i].Txt())) {
        BetweenNone(ls, i);
      } else {
        FallbackStops(ls, j, n);
        if Fallback(ls, j, n).Some? {
          var t := Fallback(ls, j, n).value;
          BetweenNext(ls, i, t);
        }
      }
    }
  }

  lemma FromEnd(ls: seq<Lexeme>)
    ensures Walk(ls, |ls|) == Ok([]) && From(ls, |ls|) == []
    ensures forall n, depth :: !StopFrom([], n, depth)
    ensures forall anchor, n, depth :: !AnchorFrom([], anchor, n, depth)
  {
    WalkEnd(ls);
  }

  /** A token that may stop is no call and no brace. */
  lemma StopHere(ls: seq<Lexeme>, i: nat)
    requires i < |ls| && ClosesApart(ls) && Walk(ls, i).Ok?
    ensures ls[i].token.kind == Close || IncludeWord(ls[i].Txt()) ==> !IsDefine(ls, i) && BraceStep(ls[i].Txt()) == 0
    ensures Step(ItemAt(ls, i).0) == BraceStep(ls[i].Txt())
  {
    if IncludeWord(ls[i].Txt()) { IncludeIsNot(ls[i].Txt()); }
  }

  /** The anchor is the first call that defines it. */
  lemma {:induction false} AnchorFinds(ls: seq<Lexeme>, i: nat, depth: int, anchor: string)
    requires i <= |ls| && Walk(ls, i).Ok?
    ensures match Anchor(ls, i, depth, anchor)
      case None => forall n :: !AnchorFrom(From(ls, i), anchor, n, depth)
      case Some(t) =>
        && i <= t < |ls| && Passes(ls, i, t) && AnchorFrom(From(ls, i), anchor, |Between(ls, i, t)|, depth)
        && forall n :: 0 <= n < |Between(ls, i, t)| ==> !AnchorFrom(From(ls, i), anchor, n, depth)
    decreases |ls| - i
  {
    hide Walk, IsDefine, CallAt, Passes, Between, From, AnchorFrom;
    if i == |ls| {
      FromEnd(ls);
    } else {
      var n := depth + BraceStep(ls[i].Txt());
      var (x, j) := ItemAt(ls, i);
      FromNext(ls, i);
      AnchorNext(x, From(ls, j), anchor, depth);
      WalkOne(ls, i);
      if IsDefine(ls, i) { DefineNoBrace(ls, i); }
      if IsDefine(ls, i) && DefineAt(ls, i).value.key == anchor && n == 0 {
        BetweenNone(ls, i);
      } else {
        AnchorFinds(ls, j, n, anchor);
        if Anchor(ls, j, n, anchor).Some? {
          var t := Anchor(ls, j, n, anchor).value;
          BetweenNext(ls, i, t);
        }
      }
    }
  }

  // ----- the insertion point -----

  lemma SourceCloses(src: string, d: Doc)
    requires Parse(src) == Ok(d)
    ensures ClosesApart(d.lexemes)
  {
    hide Parse, Pieces, ModeAfter;
    forall i | 0 <= i < |d.lexemes| && d.lexemes[i].token.kind == Close
      ensures d.lexemes[i].Txt() == "?>"
    {
      ModeAt(src, d, i);
    }
  }

  lemma FromStart(ls: seq<Lexeme>)
    requires Walk(ls, 0).Ok?
    ensures From(ls, 0) == Outline(ls)
    ensures forall t: nat :: t <= |ls| && Passes(ls, 0, t) ==> |Between(ls, 0, t)| == Ahead(ls, t)
  {
  }

  lemma AheadAll(ls: seq<Lexeme>)
    requires Walk(ls, 0).Ok?
    ensures Passes(ls, 0, |ls|) && Ahead(ls, |ls|) == |Outline(ls)|
  {
    hide Walk, Passes, Out, Outline, Ahead;
    WalkPassesEnd(ls, 0);
    OutlineSplit(ls, |ls|);
    FromEnd(ls);
    assert |Outline(ls)[Ahead(ls, |ls|)..]| == 0;
  }

  /** The insertion token is the place where new calls belong. */
  lemma PlaceIs(src: string, d: Doc, anchor: string)
    requires Parse(src) == Ok(d) && Walk(d.lexemes, 0).Ok?
    ensures var c := InsertToken(d.lexemes, anchor);
      Passes(d.lexemes, 0, c) && Place(Outline(d.lexemes), anchor, Ahead(d.lexemes, c))
  {
    hide Parse, Walk, Passes, Anchor, Fallback, Outline, Ahead, From, Between, StopFrom, AnchorFrom;
    var ls := d.lexemes;
    SourceCloses(src, d);
    FromStart(ls);
    AheadAll(ls);
    AnchorFinds(ls, 0, 0, anchor);
    FallbackStops(ls, 0, 0);
    var o := Outline(ls);
    if Anchor(ls, 0, 0, anchor).Some? {
      assert AnchorCall(o, anchor, Ahead(ls, Anchor(ls, 0, 0, anchor).value));
    } else if Fallback(ls, 0, 0).Some? {
      assert Stop(o, Ahead(ls, Fallback(ls, 0, 0).value));
    }
  }

  predicate AllSpaces(o: seq<Item>) {
    forall i :: 0 <= i < |o| ==> o[i].Tok? && AllSpace(o[i].piece.text)
  }

  /** Between where the block goes in and the insertion token are only spaces. */
  lemma SpotPlace(src: string, d: Doc, anchor: string)
    requires Parse(src) == Ok(d) && Walk(d.lexemes, 0).Ok? && forall i :: 0 <= i < |d.lexemes| ==> Start(d.lexemes, i) <= |src|
    ensures var ls := d.lexemes;
      var c, c0 := Spot(src, ls, anchor), InsertToken(ls, anchor);
      && Passes(ls, 0, c) && Passes(ls, 0, c0) && Ahead(ls, c) <= Ahead(ls, c0) <= |Outline(ls)|
      && AllSpaces(Outline(ls)[Ahead(ls, c)..Ahead(ls, c0)])
  {
    hide Parse, Walk, Passes, Start, End, InsertPosition, InsertToken, Outline, Ahead, Out, CallAt, InPhp, Flatten, Head, Gap;
    var ls := d.lexemes;
    var c, c0 := Spot(src, ls, anchor), InsertToken(ls, anchor);
    var k := InsertSpot(src, d, anchor);
    forall j | c <= j < c0
      ensures AllSpace(ls[j].Txt()) && !IsDefine(ls, j)
    {
      SpotSpace(src, d, anchor, j);
    }
    WalkOver(ls, c, c0);
    PassesBoth(ls, c, c0);
    OutlineSplit(ls, c0);
    OutlineSplit(ls, c);
    SpacesBetween(ls, c, c0);
    AheadSplit(ls, c, c0);
  }

  lemma SpacesBetween(ls: seq<Lexeme>, c: nat, c0: nat)
    requires c <= c0 <= |ls| && forall j :: c <= j < c0 ==> AllSpace(ls[j].Txt())
    ensures Chained([], c, c0) && AllSpaces(Out(ls, [], c, c0))
  {
    hide AllSpace;
  }

  lemma AheadSplit(ls: seq<Lexeme>, c: nat, c0: nat)
    requires c <= c0 <= |ls| && Walk(ls, 0).Ok? && Passes(ls, 0, c) && Passes(ls, 0, c0) && Passes(ls, c, c0)
    ensures Ahead(ls, c) <= Ahead(ls, c0) <= |Outline(ls)| && Chained(WalkTo(ls, c, c0), c, c0)
    ensures Outline(ls)[Ahead(ls, c)..Ahead(ls, c0)] == Out(ls, WalkTo(ls, c, c0), c, c0)
  {
    hide Walk, Passes, WalkTo, Out, Outline;
    PassesBoth(ls, c, c0);
    OutlineSplit(ls, c0);
    OutlineSplit(ls, c);
    var o, n, m := Outline(ls), Ahead(ls, c), Ahead(ls, c0);
    assert o[..m] == o[..n] + Out(ls, WalkTo(ls, c, c0), c, c0) by { assert o[..n] == Out(ls, WalkTo(ls, 0, c), 0, c); }
  }

  // ----- what is added -----

  /** The keys of the order that no call defines. */
  function Lacking(order: seq<string>, o: seq<Item>): seq<string> {
    if order == [] then []
    else
      var n := |order| - 1;
      Lacking(order[..n], o) + if Call(order[n]) in o then [] else [order[n]]
  }

  /** One call for each key, each with its semicolon. */
  function Added(keys: seq<string>): (r: seq<Item>)
    ensures |r| == 2 * |keys|
  {
    if keys == [] then [] else Added(keys[..|keys| - 1]) + [Call(keys[|keys| - 1]), Tok(Piece(Symbol, ";"))]
  }

  lemma {:induction false} AddedCons(key: string, keys: seq<string>)
    ensures Added([key] + keys) == [Call(key), Tok(Piece(Symbol, ";"))] + Added(keys)
    decreases |keys|
  {
    if keys == [] {
      assert [key] + keys == [key] && [key][..0] == [];
    } else {
      var n := |keys| - 1;
      AddedCons(key, keys[..n]);
      assert ([key] + keys)[..n + 1] == [key] + keys[..n];
    }
  }

  lemma {:induction false} AddedIs(keys: seq<string>, values: map<string, string>)
    requires Literals(values) && forall k :: k in keys ==> k in values
    ensures NewItems(Calls(keys, values)) == Added(keys)
  {
    hide Literals;
    if keys != [] {
      var ns := Calls(keys, values);
      AddedIs(keys[1..], values);
      assert ns[1..] == Calls(keys[1..], values);
      AddedCons(keys[0], keys[1..]);
      assert keys == [keys[0]] + keys[1..];
    }
  }

  lemma {:induction false} OutCalls(ls: seq<Lexeme>, ds: seq<Define>, from: nat, to: nat, key: string)
    requires Chained(ds, from, to) && to <= |ls|
    ensures Call(key) in Out(ls, ds, from, to) <==> key in Keys(ds)
    decreases |ds|
  {
    ChainedEnd(ds, from, to);
    if ds != [] {
      OutCalls(ls, ds[1..], ds[0].next, to, key);
      assert forall i :: 0 < i < |ds| ==> ds[i] == ds[1..][i - 1];
      assert key in Keys(ds) <==> key == ds[0].key || key in Keys(ds[1..]);
    }
  }

  lemma {:induction false} LackingSnoc(order: seq<string>, written: set<string>, key: string)
    ensures MissingKeys(order + [key], written) == MissingKeys(order, written) + if key in written then [] else [key]
  {
    if order == [] {
      assert order + [key] == [key] && [key][1..] == [];
    } else {
      assert (order + [key])[1..] == order[1..] + [key];
      LackingSnoc(order[1..], written, key);
    }
  }

  lemma {:induction false} LackingIs(order: seq<string>, written: set<string>, o: seq<Item>)
    requires forall k :: Call(k) in o <==> k in written
    ensures MissingKeys(order, written) == Lacking(order, o)
    decreases |order|
  {
    if order != [] {
      var n := |order| - 1;
      LackingIs(order[..n], written, o);
      LackingSnoc(order[..n], written, order[n]);
      assert order == order[..n] + [order[n]];
    }
  }

  // ----- a run -----

  /** The outline of a source. */
  function Outlined(src: string): seq<Item>
    requires Constants(src).Ok?
  {
    Outline(Parse(src).value.lexemes)
  }

  /** A run adds one call for each key that has none, in the given order, right before
      the place where they belong, with at most spaces between; it changes nothing
      else outside calls. */
  lemma ConstantsPlaced(src: string, values: map<string, string>, order: seq<string>, anchor: string) returns (n: nat, t: nat)
    requires Literals(values) && Manages(order, values)
    requires Constants(src).Ok? && Writable(src, values, order, anchor)
    requires forall k :: k in values ==> Count(Constants(src).value, k) <= 1
    ensures PatchConstants(src, values, order, anchor).Ok? && Constants(PatchConstants(src, values, order, anchor).value).Ok?
    ensures var o := Outlined(src);
      && n <= t <= |o| && Place(o, anchor, t) && AllSpaces(o[n..t])
      && Outlined(PatchConstants(src, values, order, anchor).value) == o[..n] + Added(Lacking(order, o)) + o[n..]
  {
    hide Parse, Walk, Literals, PatchConstants, MissingKeys, Unswallowed, Suppressed, Duplicated, Keys, Count, Outline, Ahead, Place, AllSpaces, NewItems, Passes, Spot, InsertToken;
    ConstantsWritten(src, values, order, anchor);
    var d := Parse(src).value;
    var ls := d.lexemes;
    var ds := Walk(ls, 0).value;
    WalkWithin(ls, 0);
    StartsWithin(src, d);
    DuplicatedCounts(ls, ds, values);
    OutlineKeys(ls, ds);
    LackingIs(order, Keys(ds), Outline(ls));
    PlaceIs(src, d, anchor);
    SpotPlace(src, d, anchor);
    n, t := Ahead(ls, Spot(src, ls, anchor)), Ahead(ls, InsertToken(ls, anchor));
    var missing := MissingKeys(order, Keys(ds));
    if missing == [] {
      var src', d', ds' := PatchReplaces(src, d, ds, values, order, anchor);
      assert Outline(ls) == Outline(ls)[..n] + [] + Outline(ls)[n..];
    } else {
      var src', d', ds', mid, m := PatchAdds(src, d, ds, values, order, anchor);
      AddedIs(missing, values);
    }
  }

  lemma OutlineKeys(ls: seq<Lexeme>, ds: seq<Define>)
    requires Walk(ls, 0) == Ok(ds)
    ensures forall k :: Call(k) in Outline(ls) <==> k in Keys(ds)
  {
    hide Walk, Out, Keys;
    WalkChained(ls, 0);
    forall k
      ensures Call(k) in Outline(ls) <==> k in Keys(ds)
    {
      OutCalls(ls, ds, 0, |ls|, k);
    }
  }

  // ----- the same, told by the result -----

  lemma {:induction false} OccursConcat(a: seq<Item>, b: seq<Item>, text: string)
    ensures Occurs(a + b, text) == Occurs(a, text) + Occurs(b, text)
  {
    if a == [] {
      assert a + b == b;
    } else {
      assert (a + b)[1..] == a[1..] + b;
      OccursConcat(a[1..], b, text);
    }
  }

  lemma {:induction false} AddedPlain(keys: seq<string>)
    ensures Occurs(Added(keys), "{") == 0 == Occurs(Added(keys), "}")
    ensures forall i :: 0 <= i < |Added(keys)| ==> Added(keys)[i] == Tok(Piece(Symbol, ";")) || (Added(keys)[i].Call? && Added(keys)[i].key in keys)
    decreases |keys|
  {
    if keys != [] {
      var n := |keys| - 1;
      AddedPlain(keys[..n]);
      var last := [Call(keys[n]), Tok(Piece(Symbol, ";"))];
      CallPlain(keys[n]);
      OccursConcat(Added(keys[..n]), last, "{");
      OccursConcat(Added(keys[..n]), last, "}");
    }
  }

  lemma CallPlain(key: string)
    ensures var last := [Call(key), Tok(Piece(Symbol, ";"))]; Occurs(last, "{") == 0 == Occurs(last, "}")
  {
    var last := [Call(key), Tok(Piece(Symbol, ";"))];
    assert last[1..] == [last[1]] && last[1..][1..] == [];
    assert ";"[0] != "{"[0] && ";"[0] != "}"[0];
    assert Occurs(last[1..], "{") == 0 == Occurs(last[1..], "}");
  }

  /** What stands behind the added calls is as deep in braces as it was. */
  lemma OutsideMoved(o: seq<Item>, n: nat, a: seq<Item>, p: nat)
    requires n <= |o| && Occurs(a, "{") == 0 == Occurs(a, "}")
    ensures var out := o[..n] + a + o[n..];
      && (p <= n ==> (OutsideFrom(out, p, 0) <==> OutsideFrom(o, p, 0)))
      && (n + |a| <= p <= |out| ==> (OutsideFrom(out, p, 0) <==> OutsideFrom(o, p - |a|, 0)))
  {
    var out := o[..n] + a + o[n..];
    if p <= n {
      assert out[..p] == o[..p];
    } else if n + |a| <= p <= |out| {
      var b := o[n..p - |a|];
      assert out[..p] == o[..n] + a + b && o[..p - |a|] == o[..n] + b;
      forall text | text == "{" || text == "}"
        ensures Occurs(out[..p], text) == Occurs(o[..p - |a|], text)
      {
        OccursConcat(o[..n] + a, b, text);
        OccursConcat(o[..n], a, text);
        OccursConcat(o[..n], b, text);
      }
    }
  }

  /** An item of the result is an added one, or stood in the source. */
  lemma ItemBack(o: seq<Item>, n: nat, keys: seq<string>, p: nat)
    requires n <= |o| && p < |o| + |Added(keys)|
    ensures var a := Added(keys);
      var out := o[..n] + a + o[n..];
      && |out| == |o| + |a|
      && (p < n ==> out[p] == o[p] && (OutsideFrom(out, p, 0) <==> OutsideFrom(o, p, 0)))
      && (n <= p < n + |a| ==> out[p] == Tok(Piece(Symbol, ";")) || (out[p].Call? && out[p].key in keys))
      && (n + |a| <= p ==> out[p] == o[p - |a|] && (OutsideFrom(out, p, 0) <==> OutsideFrom(o, p - |a|, 0)))
  {
    hide OutsideFrom, Added;
    var a := Added(keys);
    AddedPlain(keys);
    OutsideMoved(o, n, a, p);
    S.Middle(o[..n], a, o[n..]);
    assert n <= p < n + |a| ==> (o[..n] + a + o[n..])[p] == a[p - n];
  }

  lemma StopBack(o: seq<Item>, n: nat, keys: seq<string>, p: nat)
    requires n <= |o| && p < |o| + |Added(keys)|
    ensures var out, k := o[..n] + Added(keys) + o[n..], |Added(keys)|;
      Stop(out, p) <==> (p < n && Stop(o, p)) || (n + k <= p && Stop(o, p - k))
  {
    hide OutsideFrom, Added, Bootstrap;
    ItemBack(o, n, keys, p);
    SemicolonNoStop();
  }

  lemma SemicolonNoStop()
    ensures !Bootstrap(";")
  {
  }

  lemma AnchorBack(o: seq<Item>, anchor: string, n: nat, keys: seq<string>, p: nat)
    requires n <= |o| && p < |o| + |Added(keys)| && anchor !in keys
    ensures var out, k := o[..n] + Added(keys) + o[n..], |Added(keys)|;
      AnchorCall(out, anchor, p) <==> (p < n && AnchorCall(o, anchor, p)) || (n + k <= p && AnchorCall(o, anchor, p - k))
  {
    hide OutsideFrom, Added;
    ItemBack(o, n, keys, p);
  }

  lemma SpacesBehind(o: seq<Item>, n: nat, t: nat, keys: seq<string>)
    requires n <= t <= |o|
    ensures var out, k := o[..n] + Added(keys) + o[n..], |Added(keys)|;
      && |out| == |o| + k && out[n + k..t + k] == o[n..t] && out[n..n + k] == Added(keys) && out[..n] + out[n + k..] == o
  {
    hide Added;
    S.Middle(o[..n], Added(keys), o[n..]);
    assert o == o[..n] + o[n..];
  }

  /** The added calls stand before every closing tag and bootstrap include outside
      braces ... */
  lemma StopsBehind(o: seq<Item>, anchor: string, n: nat, t: nat, keys: seq<string>)
    requires n <= t <= |o| && Place(o, anchor, t) && forall i :: !AnchorCall(o, anchor, i)
    ensures var out, k := o[..n] + Added(keys) + o[n..], |Added(keys)|;
      && (forall p: nat :: Stop(out, p) ==> t + k <= p) && (t + k == |out| || Stop(out, t + k))
  {
    hide OutsideFrom, Bootstrap, Added;
    var out, k := o[..n] + Added(keys) + o[n..], |Added(keys)|;
    forall p: nat | Stop(out, p)
      ensures t + k <= p
    {
      StopBack(o, n, keys, p);
    }
    if t < |o| { StopBack(o, n, keys, t + k); }
  }

  /** ... and, where a call outside braces defines the anchor, before the first such. */
  lemma AnchorBehind(o: seq<Item>, anchor: string, n: nat, t: nat, keys: seq<string>)
    requires n <= t <= |o| && Place(o, anchor, t) && (exists i :: AnchorCall(o, anchor, i)) && anchor !in keys
    ensures var out, k := o[..n] + Added(keys) + o[n..], |Added(keys)|;
      AnchorCall(out, anchor, t + k) && forall p: nat :: AnchorCall(out, anchor, p) ==> t + k <= p
  {
    hide OutsideFrom, Added;
    var out, k := o[..n] + Added(keys) + o[n..], |Added(keys)|;
    forall p: nat | AnchorCall(out, anchor, p)
      ensures t + k <= p
    {
      AnchorBack(o, anchor, n, keys, p);
    }
    AnchorBack(o, anchor, n, keys, t + k);
  }

  /** After a run the added calls stand together; the first call outside braces that
      defines the anchor stands right behind them, or else no closing tag and no
      bootstrap include outside braces stands before them, and the first one, or the
      end, stands right behind them. */
  lemma ConstantsBefore(src: string, values: map<string, string>, order: seq<string>, anchor: string) returns (n: nat, e: nat, p: nat)
    requires Literals(values) && Manages(order, values)
    requires Constants(src).Ok? && Writable(src, values, order, anchor)
    requires forall k :: k in values ==> Count(Constants(src).value, k) <= 1
    ensures PatchConstants(src, values, order, anchor).Ok? && Constants(PatchConstants(src, values, order, anchor).value).Ok?
    ensures var o, out := Outlined(src), Outlined(PatchConstants(src, values, order, anchor).value);
      && n <= e <= p <= |out| && out[n..e] == Added(Lacking(order, o)) && out[..n] + out[e..] == o && AllSpaces(out[e..p])
      && if exists i :: AnchorCall(o, anchor, i) then AnchorCall(out, anchor, p) && forall i: nat :: AnchorCall(out, anchor, i) ==> p <= i
         else (p == |out| || Stop(out, p)) && forall i: nat :: Stop(out, i) ==> p <= i
  {
    hide Constants, Literals, PatchConstants, Count, Writable, Manages, Place, AllSpaces, AnchorCall, Stop, Outlined, Added, Lacking;
    var t;
    n, t := ConstantsPlaced(src, values, order, anchor);
    var o := Outlined(src);
    var keys := Lacking(order, o);
    e, p := n + |Added(keys)|, t + |Added(keys)|;
    SpacesBehind(o, n, t, keys);
    if exists i :: AnchorCall(o, anchor, i) {
      AnchorListed(order, o, anchor);
      AnchorBehind(o, anchor, n, t, keys);
    } else {
      StopsBehind(o, anchor, n, t, keys);
    }
  }

  lemma {:induction false} AnchorListed(order: seq<string>, o: seq<Item>, anchor: string)
    requires exists i :: AnchorCall(o, anchor, i)
    ensures anchor !in Lacking(order, o)
    decreases |order|
  {
    if order != [] { AnchorListed(order[..|order| - 1], o, anchor); }
  }
}
