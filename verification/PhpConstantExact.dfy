/** Exactly when a set of constants can be set.

    patchPHPConstants does not look at what stands before the place where it adds
    calls.  After `$`, `->`, `::`, `function` or a qualified name the first new call
    is not a call of the global function; and text written where a line comment ends
    falls into the comment.  `ConstantsWritableExactly` states that, apart from the
    sources that are refused, these are the only two ways to lose a constant. */
module PhpConstantExact {
  import opened Text
  import opened PhpLexer
  import opened PhpTokens
  import opened PhpLiterals
  import opened PhpScalars
  import opened PhpArrayPatch
  import opened PhpArrayLens
  import opened PhpArraySwallow
  import opened PhpDefines
  import opened PhpConstants
  import opened PhpConstantText
  import opened PhpConstantPatch
  import opened PhpConstantLaws
  import opened PhpConstantRuns
  import E = PhpEdits

  // ----- one value among the edits -----

  /** The edits of the calls do not depend on the values of other keys. */
  lemma {:induction false} DownSame(ls: seq<Lexeme>, ds: seq<Define>, v: map<string, string>, w: map<string, string>, lo: nat, k: nat)
    requires AllWithin(ls, ds) && lo <= k <= |ds|
    requires forall j :: lo <= j < k ==> (ds[j].key in v <==> ds[j].key in w) && (ds[j].key in v ==> v[ds[j].key] == w[ds[j].key])
    ensures Down(ls, ds, v, lo, k) == Down(ls, ds, w, lo, k)
    decreases k
  {
    if k > lo { DownSame(ls, ds, v, w, lo, k - 1); }
  }

  lemma DownAt(ls: seq<Lexeme>, ds: seq<Define>, values: map<string, string>, lo: nat, i: nat, k: nat)
    requires AllWithin(ls, ds) && lo <= i < k <= |ds| && ds[i].key in values
    ensures Down(ls, ds, values, lo, k) == Down(ls, ds, values, i + 1, k) + [ValueEdit(ls, ds[i], values[ds[i].key])] + Down(ls, ds, values, lo, i)
  {
    hide ValueEdit;
    DownSplit(ls, ds, values, lo, i + 1, k);
  }

  /** Calls follow one another in the text. */
  lemma CallsInText(src: string, d: Doc, ds: seq<Define>)
    requires Parse(src) == Ok(d) && Walk(d.lexemes, 0) == Ok(ds)
    ensures AllWithin(d.lexemes, ds)
    ensures forall i :: 0 <= i < |ds| ==> Start(d.lexemes, ds[i].first) <= End(d.lexemes, ds[i].last - 1) <= |src|
    ensures forall i, j :: 0 <= i < j < |ds| ==> End(d.lexemes, ds[i].last - 1) <= Start(d.lexemes, ds[j].first)
  {
    hide Parse, Walk, Start, End;
    WalkWithin(d.lexemes, 0);
    forall i | 0 <= i < |ds|
      ensures Start(d.lexemes, ds[i].first) <= End(d.lexemes, ds[i].last - 1) <= |src|
    {
      StartMonotone(src, d, ds[i].first, ds[i].last - 1);
      StartsWithin(src, d);
    }
    forall i, j | 0 <= i < j < |ds|
      ensures End(d.lexemes, ds[i].last - 1) <= Start(d.lexemes, ds[j].first)
    {
      BeforeCall(d.lexemes, ds, i, j);
      StartMonotone(src, d, ds[i].last - 1, ds[j].first);
    }
  }

  lemma {:induction false} DownChain(src: string, d: Doc, ds: seq<Define>, values: map<string, string>, lo: nat, k: nat, previous: nat, b: nat)
    requires Parse(src) == Ok(d) && Walk(d.lexemes, 0) == Ok(ds) && AllWithin(d.lexemes, ds) && lo <= k <= |ds| && b <= previous
    requires forall j :: lo <= j < k ==> b <= Start(d.lexemes, ds[j].first) && End(d.lexemes, ds[j].last - 1) <= previous
    ensures E.Chain(previous, Down(d.lexemes, ds, values, lo, k)) && b <= E.LastStart(previous, Down(d.lexemes, ds, values, lo, k))
    decreases k
  {
    hide Parse, Walk, Start, End;
    if k > lo {
      CallsInText(src, d, ds);
      var c := ds[k - 1];
      var rest := Down(d.lexemes, ds, values, lo, k - 1);
      if c.key in values {
        var e := ValueEdit(d.lexemes, c, values[c.key]);
        DownChain(src, d, ds, values, lo, k - 1, e.start, b);
        assert ([e] + rest)[1..] == rest;
      } else {
        DownChain(src, d, ds, values, lo, k - 1, previous, b);
        assert [] + rest == rest;
      }
    }
  }

  /** The edits of the calls from lo to k with an insertion among them. */
  lemma AroundChain(src: string, d: Doc, ds: seq<Define>, values: map<string, string>, lo: nat, m: nat, k: nat, previous: nat, b: nat, e: E.Edit)
    requires Parse(src) == Ok(d) && Walk(d.lexemes, 0) == Ok(ds) && AllWithin(d.lexemes, ds) && lo <= m <= k <= |ds|
    requires b <= e.start == e.end <= previous
    requires forall j :: lo <= j < k ==> b <= Start(d.lexemes, ds[j].first) && End(d.lexemes, ds[j].last - 1) <= previous
    requires forall j :: lo <= j < m ==> End(d.lexemes, ds[j].last - 1) <= e.start
    requires forall j :: m <= j < k ==> e.start <= Start(d.lexemes, ds[j].first)
    ensures var es := Down(d.lexemes, ds, values, m, k) + [e] + Down(d.lexemes, ds, values, lo, m);
      E.Chain(previous, es) && b <= E.LastStart(previous, es)
  {
    hide Parse, Walk, Start, End, Down;
    var a, z := Down(d.lexemes, ds, values, m, k), Down(d.lexemes, ds, values, lo, m);
    DownChain(src, d, ds, values, m, k, previous, e.start);
    DownChain(src, d, ds, values, lo, m, e.start, b);
    assert ([e] + z)[1..] == z;
    assert E.Chain(E.LastStart(previous, a), [e] + z);
    E.ChainConcat(previous, a, [e] + z);
    assert a + [e] + z == a + ([e] + z);
    E.LastStartConcat(previous, a, [e] + z);
    E.LastStartConcat(0, [e], z);
    if z == [] { assert [e] + z == [e]; }
  }

  // ----- the text before the value -----

  /** A kept token stands as far from the end as before. */
  lemma KeptStart(src: string, d: Doc, src1: string, d1: Doc, p: nat)
    requires Parse(src) == Ok(d) && Parse(src1) == Ok(d1) && d1.tail == d.tail
    requires p < |d.lexemes| && Kept(d.lexemes, d1.lexemes, 0, p)
    ensures var q := |d1.lexemes| - (|d.lexemes| - p);
      && 0 <= q < |d1.lexemes| && d1.lexemes[q] == d.lexemes[p]
      && Start(d.lexemes, p) <= |src| && Start(d1.lexemes, q) <= |src1|
      && |src1| - Start(d1.lexemes, q) == |src| - Start(d.lexemes, p)
  {
    hide Parse, Start, End, Pieces, Flatten;
    var ls, ls1 := d.lexemes, d1.lexemes;
    var q := |ls1| - (|ls| - p);
    assert ls1[q..] == ls[p..];
    assert ls1[q] == ls1[q..][0] && ls[p] == ls[p..][0];
    assert ls1[q + 1..] == ls1[q..][1..] && ls[p + 1..] == ls[p..][1..];
    Offsets(src, d, p);
    Offsets(src1, d1, q);
  }

  /** Editing the calls before call i, none of which is swallowed. */
  lemma EarlierText(src: string, d: Doc, ds: seq<Define>, values: map<string, string>, i: nat) returns (src1: string, d1: Doc)
    requires Patchable(src, d, ds, values, i) && i < |ds|
    ensures Start(d.lexemes, ds[i].first) <= |src|
    ensures E.ApplySorted(src, Start(d.lexemes, ds[i].first), Down(d.lexemes, ds, values, 0, i)) == Ok(src1)
    ensures Parse(src1) == Ok(d1) && d1.tail == d.tail && Kept(d.lexemes, d1.lexemes, 0, ds[i].first)
  {
    hide Parse, Walk, Start, End, Swallowed, Literals, Down, Entries, SettledIn, E.ApplySorted, Kept;
    CallsInText(src, d, ds);
    CallsAscend(d.lexemes, ds, 0, i);
    var ds1;
    src1, d1, ds1 := EditsDown(src, d, ds, values, 0, i, Start(d.lexemes, ds[i].first));
    if i == 0 {
      KeptSame(d.lexemes, 0, ds[i].first);
    } else {
      KeptWider(d.lexemes, d1.lexemes, ds[0].first, ds[i - 1].last, 0, ds[i].first);
    }
  }

  /** The block goes before call m. */
  predicate Place(src: string, ls: seq<Lexeme>, anchor: string, m: nat) {
    && (forall i :: 0 <= i < |ls| ==> Start(ls, i) <= |src|)
    && var c := Spot(src, ls, anchor); Passes(ls, 0, c) && m == |WalkTo(ls, 0, c)|
  }

  lemma BlockPlace(src: string, d: Doc, ds: seq<Define>, anchor: string) returns (m: nat)
    requires Parse(src) == Ok(d) && Walk(d.lexemes, 0) == Ok(ds)
    ensures Place(src, d.lexemes, anchor, m) && AllWithin(d.lexemes, ds) && m <= |ds|
    ensures var pos := InsertPosition(src, d.lexemes, anchor);
      && (m < |ds| ==> ds[m].first < |d.lexemes| && pos < Start(d.lexemes, ds[m].first))
      && (forall i :: 0 <= i < m ==> End(d.lexemes, ds[i].last - 1) <= pos)
      && (forall i :: m <= i < |ds| ==> pos <= Start(d.lexemes, ds[i].first))
  {
    hide Parse, Walk, Start, End, Passes, WalkTo, InsertPosition, Spot, Flatten, Pieces, InPhp;
    var k := InsertSpot(src, d, anchor);
    SpotBounds(src, d, Spot(src, d.lexemes, anchor), k, ds);
    m := |WalkTo(d.lexemes, 0, Spot(src, d.lexemes, anchor))|;
    CallsInText(src, d, ds);
    if m < |ds| {
      forall i | m < i < |ds|
        ensures InsertPosition(src, d.lexemes, anchor) <= Start(d.lexemes, ds[i].first)
      {
        assert Start(d.lexemes, ds[m].first) <= Start(d.lexemes, ds[i].first);
      }
    }
  }

  /** The same with the block among them. */
  lemma EarlierBlock(src: string, d: Doc, ds: seq<Define>, values: map<string, string>, anchor: string, missing: seq<string>, m: nat, i: nat)
      returns (src1: string, d1: Doc)
    requires Patchable(src, d, ds, values, i) && Place(src, d.lexemes, anchor, m) && m <= i < |ds|
    requires missing != [] && forall x :: x in missing ==> x in values
    ensures var pos := InsertPosition(src, d.lexemes, anchor);
      E.ApplySorted(src, |src|, Around(d.lexemes, ds, values, m, i, E.Edit(pos, pos, Block(src, pos, missing, values)))) == Ok(src1)
    ensures Parse(src1) == Ok(d1) && d1.tail == d.tail && Kept(d.lexemes, d1.lexemes, 0, ds[i].first)
  {
    hide Parse, Walk, Start, Passes, WalkTo, Literals, Suppressed, Insertable, InPhp, CallLines, NotCall, Down, SettledIn, E.ApplySorted, Around, InsertPosition, Spot, Unswallowed, Found, Kept;
    var c, pos, eol := Spot(src, d.lexemes, anchor), InsertPosition(src, d.lexemes, anchor), EOL(src);
    var k := InsertSpot(src, d, anchor);
    SpotInsertable(src, d, anchor);
    BeforeBlock(src, d, c, k);
    EolStarts(src);
    var lead := if pos > 0 && src[pos - 1] != '\n' then eol else "";
    var ds1, mid;
    src1, d1, ds1, mid := PatchAround(src, d, ds, values, c, k, lead, eol, missing, i);
  }

  // ----- a run that writes into a comment -----

  /** Call i is the first managed one whose value starts where a comment ends. */
  predicate FirstSwallowed(src: string, d: Doc, ds: seq<Define>, values: map<string, string>, i: nat) {
    && Patchable(src, d, ds, values, i) && !Duplicated(ds, values)
    && i < |ds| && ds[i].key in values && Swallowed(d.lexemes[ds[i].first])
  }

  /** The edit that writes w for call i. */
  function Write(ls: seq<Lexeme>, ds: seq<Define>, i: nat, w: string): E.Edit
    requires AllWithin(ls, ds) && i < |ds|
  {
    E.Edit(Start(ls, ds[i].first), End(ls, ds[i].last - 1), w)
  }

  /** The run writes w for one key, and what it writes besides is the same for all w. */
  predicate Writes(src: string, values: map<string, string>, order: seq<string>, anchor: string, key: string, w: string, x: string, y: string)
    requires key in values && forall k :: k in order ==> k in values
  {
    PatchConstants(src, values[key := w], order, anchor) == Ok(x + w + y)
  }

  lemma OthersDiffer(ds: seq<Define>, values: map<string, string>, i: nat)
    requires !Duplicated(ds, values) && i < |ds| && ds[i].key in values
    ensures forall j :: 0 <= j < |ds| && j != i ==> ds[j].key != ds[i].key
  {
  }

  /** The edits before and behind call i, for any value of its key. */
  lemma WriteDown(ls: seq<Lexeme>, ds: seq<Define>, values: map<string, string>, lo: nat, i: nat, k: nat, w: string)
    requires AllWithin(ls, ds) && lo <= i < k <= |ds| && !Duplicated(ds, values) && ds[i].key in values
    ensures var v := values[ds[i].key := w];
      Down(ls, ds, v, lo, k) == Down(ls, ds, values, i + 1, k) + [Write(ls, ds, i, w)] + Down(ls, ds, values, lo, i)
  {
    hide Down, Start, End;
    var v := values[ds[i].key := w];
    OthersDiffer(ds, values, i);
    DownAt(ls, ds, v, lo, i, k);
    DownSame(ls, ds, v, values, i + 1, k);
    DownSame(ls, ds, v, values, lo, i);
  }

  lemma WriteElse(ls: seq<Lexeme>, ds: seq<Define>, values: map<string, string>, lo: nat, k: nat, i: nat, w: string)
    requires AllWithin(ls, ds) && lo <= k <= |ds| && !Duplicated(ds, values) && i < |ds| && ds[i].key in values && !(lo <= i < k)
    ensures Down(ls, ds, values[ds[i].key := w], lo, k) == Down(ls, ds, values, lo, k)
  {
    OthersDiffer(ds, values, i);
    DownSame(ls, ds, values[ds[i].key := w], values, lo, k);
  }

  lemma DuplicatedKeys(ds: seq<Define>, v: map<string, string>, w: map<string, string>)
    requires v.Keys == w.Keys
    ensures Duplicated(ds, v) <==> Duplicated(ds, w)
  {
  }

  /** Nothing is missing. */
  lemma PlainRun(src: string, d: Doc, ds: seq<Define>, values: map<string, string>, order: seq<string>, anchor: string, i: nat)
      returns (x: string, y: string, src1: string, d1: Doc)
    requires FirstSwallowed(src, d, ds, values, i) && (forall k :: k in order ==> k in values) && MissingKeys(order, Keys(ds)) == []
    ensures forall w :: Writes(src, values, order, anchor, ds[i].key, w, x, y)
    ensures Parse(src1) == Ok(d1) && d1.tail == d.tail && Kept(d.lexemes, d1.lexemes, 0, ds[i].first)
    ensures Start(d.lexemes, ds[i].first) <= |src| && src1 == x + src[Start(d.lexemes, ds[i].first)..]
  {
    hide Parse, Walk, Start, End, Swallowed, Literals, Down, E.ApplySorted, E.ApplyEdits, E.Chain, E.LastStart, Kept, Duplicated, MissingKeys, Keys, Unswallowed, PatchConstants;
    var ls, n := d.lexemes, |ds|;
    CallsInText(src, d, ds);
    DownChain(src, d, ds, values, i + 1, n, |src|, End(ls, ds[i].last - 1));
    DownChain(src, d, ds, values, 0, i, Start(ls, ds[i].first), 0);
    x, y := E.AroundOne(src, Down(ls, ds, values, i + 1, n), Write(ls, ds, i, ""), Down(ls, ds, values, 0, i));
    src1, d1 := EarlierText(src, d, ds, values, i);
    forall w
      ensures Writes(src, values, order, anchor, ds[i].key, w, x, y)
    {
      var v := values[ds[i].key := w];
      WriteDown(ls, ds, values, 0, i, n, w);
      DuplicatedKeys(ds, v, values);
      DownSorts(src, d, ds, v);
      PlainPatch(src, d, ds, v, order, anchor);
    }
  }

  lemma PlainPatch(src: string, d: Doc, ds: seq<Define>, values: map<string, string>, order: seq<string>, anchor: string)
    requires Parse(src) == Ok(d) && Walk(d.lexemes, 0) == Ok(ds) && AllWithin(d.lexemes, ds) && !Duplicated(ds, values)
    requires (forall k :: k in order ==> k in values) && MissingKeys(order, Keys(ds)) == []
    ensures PatchConstants(src, values, order, anchor) == E.ApplyEdits(src, Edits(d.lexemes, ds, values, |ds|))
  {
    hide Parse, Walk, Start, End, Duplicated, MissingKeys, Keys, Edits, E.ApplyEdits, InsertPosition;
    var es := Edits(d.lexemes, ds, values, |ds|);
    assert es + [] == es;
  }

  lemma BlockPatch(src: string, d: Doc, ds: seq<Define>, values: map<string, string>, order: seq<string>, anchor: string)
    requires Parse(src) == Ok(d) && Walk(d.lexemes, 0) == Ok(ds) && AllWithin(d.lexemes, ds) && !Duplicated(ds, values)
    requires (forall k :: k in order ==> k in values) && MissingKeys(order, Keys(ds)) != []
    requires forall i :: 0 <= i < |d.lexemes| ==> Start(d.lexemes, i) <= |src|
    ensures var pos := InsertPosition(src, d.lexemes, anchor);
      PatchConstants(src, values, order, anchor) ==
        E.ApplyEdits(src, Edits(d.lexemes, ds, values, |ds|) + [E.Edit(pos, pos, Block(src, pos, MissingKeys(order, Keys(ds)), values))])
  {
    hide Parse, Walk, Start, End, Duplicated, MissingKeys, Keys, Edits, E.ApplyEdits, InsertPosition, Block;
  }

  /** The block does not depend on the values of other keys. */
  lemma BlockSame(src: string, pos: nat, missing: seq<string>, v: map<string, string>, w: map<string, string>)
    requires pos <= |src| && forall k :: k in missing ==> k in v && k in w && v[k] == w[k]
    ensures Block(src, pos, missing, v) == Block(src, pos, missing, w)
  {
    hide CallLine;
    assert CallLines(missing, v) == CallLines(missing, w);
  }

  lemma PlaceStarts(src: string, ls: seq<Lexeme>, anchor: string, m: nat)
    requires Place(src, ls, anchor, m)
    ensures forall i :: 0 <= i < |ls| ==> Start(ls, i) <= |src|
  {
  }

  /** The edits behind call i, and those before it, with the block e among them. */
  function BehindCall(ls: seq<Lexeme>, ds: seq<Define>, values: map<string, string>, m: nat, i: nat, e: E.Edit): seq<E.Edit>
    requires AllWithin(ls, ds) && m <= |ds| && i < |ds|
  {
    if m <= i then Down(ls, ds, values, i + 1, |ds|)
    else Down(ls, ds, values, m, |ds|) + [e] + Down(ls, ds, values, i + 1, m)
  }

  function AheadOfCall(ls: seq<Lexeme>, ds: seq<Define>, values: map<string, string>, m: nat, i: nat, e: E.Edit): seq<E.Edit>
    requires AllWithin(ls, ds) && m <= |ds| && i < |ds|
  {
    if m <= i then Around(ls, ds, values, m, i, e) else Down(ls, ds, values, 0, i)
  }

  lemma WriteAround(ls: seq<Lexeme>, ds: seq<Define>, values: map<string, string>, m: nat, i: nat, e: E.Edit, w: string)
    requires AllWithin(ls, ds) && m <= |ds| && i < |ds| && !Duplicated(ds, values) && ds[i].key in values
    ensures BehindCall(ls, ds, values, m, i, e) + [Write(ls, ds, i, w)] + AheadOfCall(ls, ds, values, m, i, e) == Around(ls, ds, values[ds[i].key := w], m, |ds|, e)
  {
    hide Down, Write, Duplicated;
    WriteDown(ls, ds, values, if m <= i then m else 0, i, if m <= i then |ds| else m, w);
    WriteElse(ls, ds, values, if m <= i then 0 else m, if m <= i then m else |ds|, i, w);
  }

  /** The edits before and behind the value are applied in this order. */
  lemma CallChain(src: string, d: Doc, ds: seq<Define>, values: map<string, string>, anchor: string, m: nat, i: nat, e: E.Edit)
    requires Parse(src) == Ok(d) && Walk(d.lexemes, 0) == Ok(ds) && AllWithin(d.lexemes, ds) && m <= |ds| && i < |ds| && 0 <= e.start == e.end <= |src|
    requires forall j :: 0 <= j < m ==> End(d.lexemes, ds[j].last - 1) <= e.start
    requires forall j :: m <= j < |ds| ==> e.start <= Start(d.lexemes, ds[j].first)
    ensures var a, b := Start(d.lexemes, ds[i].first), End(d.lexemes, ds[i].last - 1);
      var behind, before := BehindCall(d.lexemes, ds, values, m, i, e), AheadOfCall(d.lexemes, ds, values, m, i, e);
      && a <= b <= |src|
      && E.Chain(|src|, behind) && b <= E.LastStart(|src|, behind) && E.Chain(a, before)
  {
    hide Parse, Walk, Start, End, Down, E.Chain, E.LastStart;
    var a, b := Start(d.lexemes, ds[i].first), End(d.lexemes, ds[i].last - 1);
    CallsInText(src, d, ds);
    if m <= i {
      DownChain(src, d, ds, values, i + 1, |ds|, |src|, b);
      AroundChain(src, d, ds, values, 0, m, i, a, 0, e);
    } else {
      AroundChain(src, d, ds, values, i + 1, m, |ds|, |src|, b, e);
      DownChain(src, d, ds, values, 0, i, a, 0);
    }
  }

  lemma AroundPrevious(src: string, a: nat, es: seq<E.Edit>)
    requires es != [] && E.Chain(a, es) && a <= |src|
    ensures E.ApplySorted(src, a, es) == E.ApplySorted(src, |src|, es)
  {
  }

  /** The edits before the value, on their own. */
  lemma BeforeText(src: string, d: Doc, ds: seq<Define>, values: map<string, string>, anchor: string, missing: seq<string>, m: nat, i: nat)
      returns (src1: string, d1: Doc)
    requires Patchable(src, d, ds, values, i) && Place(src, d.lexemes, anchor, m) && m <= |ds| && i < |ds|
    requires missing != [] && forall x :: x in missing ==> x in values
    ensures Start(d.lexemes, ds[i].first) <= |src|
    ensures var pos := InsertPosition(src, d.lexemes, anchor);
      var before := AheadOfCall(d.lexemes, ds, values, m, i, E.Edit(pos, pos, Block(src, pos, missing, values)));
      E.Chain(Start(d.lexemes, ds[i].first), before) ==> E.ApplySorted(src, Start(d.lexemes, ds[i].first), before) == Ok(src1)
    ensures Parse(src1) == Ok(d1) && d1.tail == d.tail && Kept(d.lexemes, d1.lexemes, 0, ds[i].first)
  {
    hide Parse, Walk, Start, End, Down, Place, InsertPosition, Block, E.ApplySorted, E.Chain, Kept, Unswallowed, Literals;
    PlaceStarts(src, d.lexemes, anchor, m);
    CallsInText(src, d, ds);
    if m <= i {
      var pos := InsertPosition(src, d.lexemes, anchor);
      var es := Around(d.lexemes, ds, values, m, i, E.Edit(pos, pos, Block(src, pos, missing, values)));
      src1, d1 := EarlierBlock(src, d, ds, values, anchor, missing, m, i);
      if E.Chain(Start(d.lexemes, ds[i].first), es) { AroundPrevious(src, Start(d.lexemes, ds[i].first), es); }
    } else {
      src1, d1 := EarlierText(src, d, ds, values, i);
    }
  }

  lemma BlockWrites(src: string, d: Doc, ds: seq<Define>, values: map<string, string>, order: seq<string>, anchor: string, i: nat, m: nat, w: string, out: string)
    requires FirstSwallowed(src, d, ds, values, i) && (forall k :: k in order ==> k in values) && MissingKeys(order, Keys(ds)) != []
    requires forall i :: 0 <= i < |d.lexemes| ==> Start(d.lexemes, i) <= |src|
    requires m <= |ds| && (m < |ds| ==> ds[m].first < |d.lexemes| && InsertPosition(src, d.lexemes, anchor) < Start(d.lexemes, ds[m].first))
    requires var pos := InsertPosition(src, d.lexemes, anchor);
      var e := E.Edit(pos, pos, Block(src, pos, MissingKeys(order, Keys(ds)), values));
      E.ApplySorted(src, |src|, Around(d.lexemes, ds, values[ds[i].key := w], m, |ds|, e)) == Ok(out)
    ensures PatchConstants(src, values[ds[i].key := w], order, anchor) == Ok(out)
  {
    hide Parse, Walk, Start, End, Swallowed, Literals, Down, Around, InsertPosition, Block, E.ApplySorted, E.ApplyEdits, Edits, Duplicated, MissingKeys, Unswallowed, PatchConstants;
    var v, pos, missing := values[ds[i].key := w], InsertPosition(src, d.lexemes, anchor), MissingKeys(order, Keys(ds));
    DuplicatedKeys(ds, v, values);
    assert ds[i].key in Keys(ds);
    BlockSame(src, pos, missing, v, values);
    AroundSorts(src, d, ds, v, m, E.Edit(pos, pos, Block(src, pos, missing, values)));
    BlockPatch(src, d, ds, v, order, anchor);
  }

  /** There are missing calls, and the block goes before call i or behind it. */
  lemma BlockRun(src: string, d: Doc, ds: seq<Define>, values: map<string, string>, order: seq<string>, anchor: string, i: nat)
      returns (x: string, y: string, src1: string, d1: Doc)
    requires FirstSwallowed(src, d, ds, values, i) && (forall k :: k in order ==> k in values) && MissingKeys(order, Keys(ds)) != []
    ensures forall w :: Writes(src, values, order, anchor, ds[i].key, w, x, y)
    ensures Parse(src1) == Ok(d1) && d1.tail == d.tail && Kept(d.lexemes, d1.lexemes, 0, ds[i].first)
    ensures Start(d.lexemes, ds[i].first) <= |src| && src1 == x + src[Start(d.lexemes, ds[i].first)..]
  {
    hide Parse, Walk, Start, End, Swallowed, Literals, Down, Around, Place, InsertPosition, Block, BehindCall, AheadOfCall, E.ApplySorted, E.Chain, E.LastStart, Kept, Duplicated, MissingKeys, Keys, Unswallowed, PatchConstants;
    var ls, missing := d.lexemes, MissingKeys(order, Keys(ds));
    var m := BlockPlace(src, d, ds, anchor);
    PlaceStarts(src, ls, anchor, m);
    var pos := InsertPosition(src, ls, anchor);
    var e := E.Edit(pos, pos, Block(src, pos, missing, values));
    CallChain(src, d, ds, values, anchor, m, i, e);
    src1, d1 := BeforeText(src, d, ds, values, anchor, missing, m, i);
    x, y := E.AroundOne(src, BehindCall(ls, ds, values, m, i, e), Write(ls, ds, i, ""), AheadOfCall(ls, ds, values, m, i, e));
    forall w
      ensures Writes(src, values, order, anchor, ds[i].key, w, x, y)
    {
      WriteAround(ls, ds, values, m, i, e, w);
      BlockWrites(src, d, ds, values, order, anchor, i, m, w, x + w + y);
    }
  }

  // ----- which values are lost -----

  /** After the run every managed key has exactly one call, with its value. */
  predicate SetsAll(src: string, values: map<string, string>, order: seq<string>, anchor: string)
    requires forall k :: k in order ==> k in values
  {
    var r := PatchConstants(src, values, order, anchor);
    r.Ok? && Constants(r.value).Ok? && HoldsValues(Constants(r.value).value, values)
  }

  /** The source is scanned and defines no managed key twice, no managed value starts
      where a comment ends, and the calls that are missing are not suppressed. */
  predicate Settable(src: string, values: map<string, string>, order: seq<string>, anchor: string) {
    && Constants(src).Ok?
    && (forall k :: k in values ==> Count(Constants(src).value, k) <= 1)
    && Writable(src, values, order, anchor)
  }

  /** The text of a call's value starts at a piece of the scan. */
  lemma DefineOffset(src: string, i: nat) returns (o: nat, k: nat, ps: seq<Piece>)
    requires Constants(src).Ok? && i < |Constants(src).value|
    ensures var w := Constants(src).value[i].value;
      w != [] && o + |ValueText(w)| <= |src| && src[o..o + |ValueText(w)|] == ValueText(w)
    ensures Scan(src, false) == Ok(ps) && k <= |ps| && |Flatten(ps[..k])| == o
  {
    hide Parse, Walk, Pieces, Flatten, ValueText, Start, End, AllPieces;
    var d := Parse(src).value;
    var ds := Walk(d.lexemes, 0).value;
    WalkWithin(d.lexemes, 0);
    var c := ds[i];
    ValueOffsets(src, d, c.first, c.last - c.first);
    o := Start(d.lexemes, c.first);
    ps := AllPieces(d);
    k := PieceOffset(src, d, c.first);
  }

  lemma HeldAt(es: seq<Entry>, values: map<string, string>, key: string) returns (j: nat)
    requires HoldsValues(es, values) && key in values
    ensures j < |es| && es[j].key == key && es[j].value != [] && ValueText(es[j].value) == values[key]
  {
    hide ValueText, Count;
    CountAt(es, key);
    j :| 0 <= j < |es| && es[j].key == key;
  }

  /** The value of a call stands behind a comma. */
  lemma ValueFirst(src: string, d: Doc, ds: seq<Define>, i: nat)
    requires Parse(src) == Ok(d) && Walk(d.lexemes, 0) == Ok(ds) && i < |ds|
    ensures 0 < ds[i].first < |d.lexemes| && d.lexemes[ds[i].first].token.kind != Open
  {
    hide Parse, Walk, IsDefine, CallAt;
    WalkWithin(d.lexemes, 0);
    WalkReaches(d.lexemes, 0, i);
    CallTokens(d.lexemes, ds[i].at);
    AfterComma(src, d, ds[i].first);
  }

  /** A long string that is written where a comment ends is not found afterwards. */
  lemma LongLost(src: string, d: Doc, ds: seq<Define>, values: map<string, string>, order: seq<string>, anchor: string, i: nat) returns (w: string)
    requires FirstSwallowed(src, d, ds, values, i) && forall k :: k in order ==> k in values
    ensures IsLiteral(w) && !SetsAll(src, values[ds[i].key := w], order, anchor)
  {
    hide Parse, Walk, Start, End, Swallowed, Literals, Kept, Duplicated, Unswallowed, PatchConstants, Constants, HoldsValues, SingleQuoted, ValueText, IsLiteral, Scan, Flatten;
    var p := ds[i].first;
    ValueFirst(src, d, ds, i);
    var x, y, src1, d1;
    if MissingKeys(order, Keys(ds)) == [] {
      x, y, src1, d1 := PlainRun(src, d, ds, values, order, anchor, i);
    } else {
      x, y, src1, d1 := BlockRun(src, d, ds, values, order, anchor, i);
    }
    KeptStart(src, d, src1, d1, p);
    var q := |d1.lexemes| - (|d.lexemes| - p);
    var n := |x| + |y| + 1;
    w := SingleQuoted(Long(n));
    QuotedIsLiteral(Long(n));
    var v := values[ds[i].key := w];
    assert Writes(src, values, order, anchor, ds[i].key, w, x, y);
    assert src1[..|x|] == x && Start(d1.lexemes, q) == |x|;
    if SetsAll(src, v, order, anchor) { NotFound(src1, d1, q, n, x, y, v, ds[i].key); }
  }

  /** The long string is not the value of a call of the resulting source. */
  lemma NotFound(src1: string, d1: Doc, q: nat, n: nat, x: string, y: string, values: map<string, string>, key: string)
    requires Parse(src1) == Ok(d1) && q < |d1.lexemes| && d1.lexemes[q].token.kind != Open && Swallowed(d1.lexemes[q])
    requires Start(d1.lexemes, q) == |x| <= |src1| && src1[..|x|] == x && |x| + |y| < n
    requires key in values && values[key] == SingleQuoted(Long(n))
    ensures var out := x + SingleQuoted(Long(n)) + y;
      !(Constants(out).Ok? && HoldsValues(Constants(out).value, values))
  {
    hide Parse, Start, Swallowed, Constants, HoldsValues, SingleQuoted, ValueText, Scan, Flatten;
    var out := x + SingleQuoted(Long(n)) + y;
    if Constants(out).Ok? && HoldsValues(Constants(out).value, values) {
      var j := HeldAt(Constants(out).value, values, key);
      var o, k, ps := DefineOffset(out, j);
      LostPiece(src1, d1, q, n, y, o, k, ps);
    }
  }

  lemma {:induction false} FirstOf(ls: seq<Lexeme>, ds: seq<Define>, values: map<string, string>, k: nat) returns (i: nat)
    requires AllWithin(ls, ds) && k <= |ds| && !Unswallowed(ls, ds, values, 0, k)
    ensures i < k && Unswallowed(ls, ds, values, 0, i) && ds[i].key in values && Swallowed(ls[ds[i].first])
    decreases k
  {
    hide Swallowed;
    if k > 0 && Unswallowed(ls, ds, values, 0, k - 1) {
      i := k - 1;
    } else {
      i := FirstOf(ls, ds, values, k - 1);
    }
  }

  /** A value that falls into a comment is lost, whatever the other values are. */
  lemma SwallowedKeyLost(src: string, values: map<string, string>, order: seq<string>, anchor: string) returns (key: string, w: string)
    requires Literals(values) && Manages(order, values)
    requires Constants(src).Ok? && !NoneSwallowed(src, values) && forall k :: k in values ==> Count(Constants(src).value, k) <= 1
    ensures key in values && IsLiteral(w) && !SetsAll(src, values[key := w], order, anchor)
  {
    hide Parse, Walk, Literals, Swallowed, Unswallowed, Duplicated, Count, SetsAll, IsLiteral;
    var d := Parse(src).value;
    var ds := Walk(d.lexemes, 0).value;
    WalkWithin(d.lexemes, 0);
    DuplicatedCounts(d.lexemes, ds, values);
    var i := FirstOf(d.lexemes, ds, values, |ds|);
    key := ds[i].key;
    w := LongLost(src, d, ds, values, order, anchor, i);
  }

  /** Where no value falls into a comment, a run sets the constants exactly when the
      calls it adds, if any, are not suppressed, whatever the values are. */
  lemma SuppressedLost(src: string, values: map<string, string>, order: seq<string>, anchor: string)
    requires Literals(values) && Manages(order, values)
    requires Constants(src).Ok? && NoneSwallowed(src, values) && forall k :: k in values ==> Count(Constants(src).value, k) <= 1
    ensures SetsAll(src, values, order, anchor) <==> Writable(src, values, order, anchor)
  {
    hide Constants, PatchConstants, HoldsValues, Literals, Unmanaged, Count, NoneSwallowed, Writable;
    ConstantsRun(src, values, order, anchor);
  }

  /** Only the keys matter to whether the constants can be set. */
  lemma SettableKeys(src: string, v: map<string, string>, w: map<string, string>, order: seq<string>, anchor: string)
    requires v.Keys == w.Keys && Manages(order, v)
    ensures Manages(order, w) && (Settable(src, v, order, anchor) <==> Settable(src, w, order, anchor))
  {
    hide Parse, Walk, Suppressed, Swallowed, Spot, MissingKeys, Keys, Count, Distinct;
    assert forall k :: k in v <==> k in w;
    if Constants(src).Ok? { NoneSwallowedKeys(src, v, w); }
  }

  lemma NoneSwallowedKeys(src: string, v: map<string, string>, w: map<string, string>)
    requires v.Keys == w.Keys && Constants(src).Ok?
    ensures NoneSwallowed(src, v) <==> NoneSwallowed(src, w)
  {
  }

  /** A source that cannot be scanned, or defines a managed key twice, is refused. */
  lemma Refused(src: string, values: map<string, string>, order: seq<string>, anchor: string)
    requires forall k :: k in order ==> k in values
    requires Constants(src).Ok? ==> exists k :: k in values && Count(Constants(src).value, k) > 1
    ensures !SetsAll(src, values, order, anchor)
  {
    hide Constants, HoldsValues, PatchConstants, Count;
    if PatchConstants(src, values, order, anchor).Ok? { PatchedOnce(src, values, order, anchor); }
  }

  /** Some literals, for the keys. */
  function Empties(values: map<string, string>): map<string, string> { map k | k in values :: SingleQuoted("") }

  lemma Blanked(values: map<string, string>)
    ensures Literals(Empties(values)) && Empties(values).Keys == values.Keys
  {
    hide SingleQuoted, IsLiteral;
    QuotedIsLiteral("");
  }

  lemma LiteralsSet(values: map<string, string>, key: string, w: string)
    requires Literals(values) && IsLiteral(w) && key in values
    ensures Literals(values[key := w]) && values[key := w].Keys == values.Keys
  {
  }

  /** Some valuation of the keys is lost. */
  lemma SomeLost(src: string, values: map<string, string>, order: seq<string>, anchor: string) returns (v: map<string, string>)
    requires Manages(order, values) && !Settable(src, values, order, anchor)
    ensures v.Keys == values.Keys && Literals(v) && !SetsAll(src, v, order, anchor)
  {
    hide Constants, Literals, IsLiteral, NoneSwallowed, Writable, Count, SetsAll, Empties, Distinct;
    v := Empties(values);
    Blanked(values);
    SettableKeys(src, values, v, order, anchor);
    if Constants(src).Err? || exists k :: k in v && Count(Constants(src).value, k) > 1 {
      Refused(src, v, order, anchor);
    } else if NoneSwallowed(src, v) {
      SuppressedLost(src, v, order, anchor);
    } else {
      var key, w := SwallowedKeyLost(src, v, order, anchor);
      LiteralsSet(v, key, w);
      v := v[key := w];
    }
  }

  /** A set of constants can be set to all literals exactly when the source is scanned
      and defines none of them twice, the value of none starts with a `?>` that ends a
      line comment, and the calls to be added, if any, do not stand behind a token
      that suppresses the first one. */
  lemma ConstantsWritableExactly(src: string, values: map<string, string>, order: seq<string>, anchor: string)
    requires Manages(order, values)
    ensures Settable(src, values, order, anchor) <==>
      forall v: map<string, string> :: v.Keys == values.Keys && Literals(v) ==> (forall k :: k in order ==> k in v) && SetsAll(src, v, order, anchor)
  {
    hide Constants, Literals, NoneSwallowed, Writable, Count, PatchConstants, HoldsValues, Distinct, Unmanaged;
    if Settable(src, values, order, anchor) {
      forall v: map<string, string> | v.Keys == values.Keys && Literals(v)
        ensures (forall k :: k in order ==> k in v) && SetsAll(src, v, order, anchor)
      {
        SettableKeys(src, values, v, order, anchor);
        ConstantsWritten(src, v, order, anchor);
      }
    } else {
      var v := SomeLost(src, values, order, anchor);
    }
  }
}
