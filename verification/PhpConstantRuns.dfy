/** What a run of patchPHPConstants leaves behind, and what a second run does. */
module PhpConstantRuns {
  import opened Text
  import opened PhpLexer
  import opened PhpTokens
  import opened PhpSplice
  import opened PhpScalars
  import opened PhpEntries
  import opened PhpArrayPatch
  import opened PhpArrayLens
  import opened PhpDefines
  import opened PhpConstants
  import opened PhpConstantText
  import opened PhpConstantPatch
  import opened PhpConstantLaws
  import E = PhpEdits
  import O = PhpOutline

  /** The literal calls that scanning a source finds. */
  function Constants(src: string): Result<seq<Entry>, PhpError> {
    match Parse(src)
    case Err(e) => Err(e)
    case Ok(d) =>
      match Walk(d.lexemes, 0)
      case Err(e) => Err(e)
      case Ok(ds) =>
        WalkWithin(d.lexemes, 0);
        Ok(Entries(d.lexemes, ds))
  }

  function Count(es: seq<Entry>, key: string): nat {
    if es == [] then 0 else (if es[0].key == key then 1 else 0) + Count(es[1..], key)
  }

  function Unmanaged(es: seq<Entry>, values: map<string, string>): seq<Entry> {
    if es == [] then [] else (if es[0].key in values then [] else [es[0]]) + Unmanaged(es[1..], values)
  }

  predicate Distinct(order: seq<string>) {
    forall i, j :: 0 <= i < j < |order| ==> order[i] != order[j]
  }

  /** The order lists every managed key once. */
  predicate Manages(order: seq<string>, values: map<string, string>) {
    Distinct(order) && (forall k :: k in values ==> k in order) && (forall k :: k in order ==> k in values)
  }

  /** No managed value starts with a `?>` that ends a line comment. */
  predicate NoneSwallowed(src: string, values: map<string, string>)
    requires Constants(src).Ok?
  {
    var ls := Parse(src).value.lexemes;
    var ds := Walk(ls, 0).value;
    WalkWithin(ls, 0);
    Unswallowed(ls, ds, values, 0, |ds|)
  }

  /** No managed value is swallowed so; and when calls are to be added, the token before them does not keep the first one from being
      a call of the global function. */
  predicate Writable(src: string, values: map<string, string>, order: seq<string>, anchor: string)
    requires Constants(src).Ok?
  {
    var ls := Parse(src).value.lexemes;
    var ds := Walk(ls, 0).value;
    WalkWithin(ls, 0);
    StartsWithin(src, Parse(src).value);
    NoneSwallowed(src, values) && (MissingKeys(order, Keys(ds)) != [] ==> !Suppressed(ls, Spot(src, ls, anchor)))
  }

  /** The calls of managed keys carry the managed values. */
  predicate Carries(es: seq<Entry>, values: map<string, string>) {
    forall i :: 0 <= i < |es| && es[i].key in values ==> es[i].value != [] && ValueText(es[i].value) == values[es[i].key]
  }

  /** Each managed key has exactly one call, with the managed value. */
  predicate HoldsValues(es: seq<Entry>, values: map<string, string>) {
    (forall k :: k in values ==> Count(es, k) == 1) && Carries(es, values)
  }

  // ----- counting -----

  lemma {:induction false} CountConcat(a: seq<Entry>, b: seq<Entry>, key: string)
    ensures Count(a + b, key) == Count(a, key) + Count(b, key)
  {
    if a == [] {
      assert a + b == b;
    } else {
      assert (a + b)[1..] == a[1..] + b;
      CountConcat(a[1..], b, key);
    }
  }

  lemma {:induction false} CountKeys(a: seq<Entry>, b: seq<Entry>, key: string)
    requires |a| == |b| && forall i :: 0 <= i < |a| ==> a[i].key == b[i].key
    ensures Count(a, key) == Count(b, key)
  {
    if a != [] { CountKeys(a[1..], b[1..], key); }
  }

  lemma {:induction false} CountAt(es: seq<Entry>, key: string)
    ensures Count(es, key) > 0 <==> exists i :: 0 <= i < |es| && es[i].key == key
    ensures Count(es, key) > 1 <==> exists i, j :: 0 <= i < j < |es| && es[i].key == key == es[j].key
  {
    if es != [] {
      var rest := es[1..];
      CountAt(rest, key);
      forall i | 0 <= i < |rest|
        ensures rest[i] == es[i + 1]
      {
      }
      if Count(rest, key) > 0 {
        var i :| 0 <= i < |rest| && rest[i].key == key;
        assert es[i + 1].key == key;
      }
      if Count(rest, key) > 1 {
        var i, j :| 0 <= i < j < |rest| && rest[i].key == key == rest[j].key;
        assert es[i + 1].key == key == es[j + 1].key;
      }
      if i, j :| 0 <= i < j < |es| && es[i].key == key == es[j].key {
        assert rest[j - 1].key == key;
        if i > 0 { assert rest[i - 1].key == key; }
      }
      if i :| 0 <= i < |es| && es[i].key == key {
        if i > 0 { assert rest[i - 1].key == key; }
      }
    }
  }

  lemma {:induction false} CountDistinct(es: seq<Entry>, keys: seq<string>, key: string)
    requires |es| == |keys| && Distinct(keys) && forall i :: 0 <= i < |es| ==> es[i].key == keys[i]
    ensures Count(es, key) == if key in keys then 1 else 0
  {
    CountAt(es, key);
    if key in keys {
      var i :| 0 <= i < |keys| && keys[i] == key;
      assert es[i].key == key;
    }
  }

  lemma {:induction false} MissingDistinct(order: seq<string>, written: set<string>)
    requires Distinct(order)
    ensures Distinct(MissingKeys(order, written))
  {
    if order != [] {
      var rest := MissingKeys(order[1..], written);
      assert forall i :: 0 <= i < |order| - 1 ==> order[1..][i] == order[i + 1];
      MissingDistinct(order[1..], written);
      forall i, j | 0 <= i < j < |MissingKeys(order, written)|
        ensures MissingKeys(order, written)[i] != MissingKeys(order, written)[j]
      {
        if order[0] !in written {
          assert rest[j - 1] in rest;
        }
      }
    }
  }

  lemma {:induction false} UnmanagedConcat(a: seq<Entry>, b: seq<Entry>, values: map<string, string>)
    ensures Unmanaged(a + b, values) == Unmanaged(a, values) + Unmanaged(b, values)
  {
    if a == [] {
      assert a + b == b;
    } else {
      assert (a + b)[1..] == a[1..] + b;
      UnmanagedConcat(a[1..], b, values);
    }
  }

  lemma {:induction false} UnmanagedNone(es: seq<Entry>, values: map<string, string>)
    requires forall i :: 0 <= i < |es| ==> es[i].key in values
    ensures Unmanaged(es, values) == []
  {
    if es != [] { UnmanagedNone(es[1..], values); }
  }

  lemma {:induction false} UnmanagedSettled(es: seq<Entry>, es': seq<Entry>, values: map<string, string>)
    requires |es| == |es'| && forall i :: 0 <= i < |es| ==> Settled(es[i], es'[i], values)
    ensures Unmanaged(es', values) == Unmanaged(es, values)
  {
    if es != [] {
      assert Settled(es[0], es'[0], values);
      assert forall i :: 0 <= i < |es[1..]| ==> Settled(es[1..][i], es'[1..][i], values) by {
        forall i | 0 <= i < |es[1..]|
          ensures Settled(es[1..][i], es'[1..][i], values)
        {
          assert Settled(es[i + 1], es'[i + 1], values);
        }
      }
      UnmanagedSettled(es[1..], es'[1..], values);
    }
  }

  /** Managed keys that two calls define are those counted twice. */
  lemma DuplicatedCounts(ls: seq<Lexeme>, ds: seq<Define>, values: map<string, string>)
    requires AllWithin(ls, ds)
    ensures Duplicated(ds, values) <==> exists k :: k in values && Count(Entries(ls, ds), k) > 1
    ensures forall k :: k in Keys(ds) <==> Count(Entries(ls, ds), k) > 0
  {
    var es := Entries(ls, ds);
    assert forall i :: 0 <= i < |ds| ==> es[i].key == ds[i].key;
    if i, j :| 0 <= i < j < |ds| && ds[i].key == ds[j].key && ds[i].key in values {
      assert es[i].key == ds[i].key == es[j].key;
      CountAt(es, ds[i].key);
    }
    if k :| k in values && Count(es, k) > 1 { CountAt(es, k); }
    forall k
      ensures k in Keys(ds) <==> Count(es, k) > 0
    {
      CountAt(es, k);
      if k in Keys(ds) {
        var i :| 0 <= i < |ds| && ds[i].key == k;
        assert es[i].key == k;
      }
    }
  }

  lemma ReplacedText(es: seq<Entry>, mid: seq<Entry>, m: nat, values: map<string, string>, added: seq<string>, es': seq<Entry>, i: nat)
    requires Literals(values) && SettledIn(es, mid, values, 0, |es|) && m <= |mid| && forall k :: k in added ==> k in values
    requires es' == mid[..m] + NewEntries(Calls(added, values)) + mid[m..] && i < |es'| && es'[i].key in values
    ensures es'[i].value != [] && ValueText(es'[i].value) == values[es'[i].key]
  {
    hide Literals, ValueText, ValueLexemes, LiteralPieces, IsLiteral, SettledIn;
    var new' := NewEntries(Calls(added, values));
    AllSettled(es, mid, values);
    if i < m {
      assert es'[i] == mid[i] && Settled(es[i], mid[i], values);
    } else if i < m + |new'| {
      NewText(added, values, i - m);
    } else {
      assert es'[i] == mid[i - |new'|] && Settled(es[i - |new'|], mid[i - |new'|], values);
    }
  }

  lemma ReplacedOthers(es: seq<Entry>, mid: seq<Entry>, m: nat, values: map<string, string>, new': seq<Entry>)
    requires SettledIn(es, mid, values, 0, |es|) && m <= |mid| && forall i :: 0 <= i < |new'| ==> new'[i].key in values
    ensures Unmanaged(mid[..m] + new' + mid[m..], values) == Unmanaged(es, values)
  {
    hide Unmanaged, SettledIn, Settled;
    AllSettled(es, mid, values);
    UnmanagedConcat(mid[..m] + new', mid[m..], values);
    UnmanagedConcat(mid[..m], new', values);
    UnmanagedConcat(mid[..m], mid[m..], values);
    assert mid == mid[..m] + mid[m..];
    UnmanagedNone(new', values);
    UnmanagedSettled(es, mid, values);
  }

  /** What replacing the values and adding some of the missing calls comes to: the
      values are all set exactly when none of the missing calls is left out. */
  lemma Replaced(es: seq<Entry>, mid: seq<Entry>, m: nat, values: map<string, string>, missing: seq<string>, added: seq<string>, es': seq<Entry>)
    requires Literals(values) && SettledIn(es, mid, values, 0, |es|) && m <= |mid| && forall k :: k in missing ==> k in values
    requires added == missing || (missing != [] && added == missing[1..])
    requires es' == mid[..m] + NewEntries(Calls(added, values)) + mid[m..]
    requires Distinct(missing) && forall k :: k in values ==> Count(es, k) <= 1 && (k in missing <==> Count(es, k) == 0)
    ensures Carries(es', values) && (HoldsValues(es', values) <==> added == missing)
    ensures Unmanaged(es', values) == Unmanaged(es, values)
  {
    hide Literals, ValueText, ValueLexemes, LiteralPieces, IsLiteral, Count, Unmanaged, SettledIn, Settled, Distinct;
    var new' := NewEntries(Calls(added, values));
    AllSettled(es, mid, values);
    AddedDistinct(missing, added);
    forall k | k in values
      ensures Count(es', k) == Count(es, k) + if k in added then 1 else 0
    {
      CountAround(mid, m, new', k);
      CountKeys(mid, es, k);
      CountDistinct(new', added, k);
    }
    forall i | 0 <= i < |es'| && es'[i].key in values
      ensures es'[i].value != [] && ValueText(es'[i].value) == values[es'[i].key]
    {
      ReplacedText(es, mid, m, values, added, es', i);
    }
    ReplacedOthers(es, mid, m, values, new');
    if added != missing { assert missing[0] in missing; }
  }

  lemma AddedDistinct(missing: seq<string>, added: seq<string>)
    requires Distinct(missing) && (added == missing || (missing != [] && added == missing[1..]))
    ensures Distinct(added) && (forall k :: k in added ==> k in missing) && (added != missing ==> missing[0] !in added)
  {
  }

  lemma AllSettled(es: seq<Entry>, mid: seq<Entry>, values: map<string, string>)
    requires SettledIn(es, mid, values, 0, |es|)
    ensures |mid| == |es| && forall i :: 0 <= i < |es| ==> Settled(es[i], mid[i], values) && es[i].key == mid[i].key
  {
  }

  lemma CountAround(mid: seq<Entry>, m: nat, new': seq<Entry>, key: string)
    requires m <= |mid|
    ensures Count(mid[..m] + new' + mid[m..], key) == Count(mid, key) + Count(new', key)
  {
    CountConcat(mid[..m] + new', mid[m..], key);
    CountConcat(mid[..m], new', key);
    CountConcat(mid[..m], mid[m..], key);
    assert mid == mid[..m] + mid[m..];
  }

  lemma NewText(keys: seq<string>, values: map<string, string>, i: nat)
    requires Literals(values) && (forall k :: k in keys ==> k in values) && i < |keys|
    ensures var e := NewEntries(Calls(keys, values))[i]; e.key == keys[i] && e.value != [] && ValueText(e.value) == values[keys[i]]
  {
    hide ValueText, IsLiteral, LiteralPieces;
    assert IsLiteral(values[keys[i]]);
    LiteralText(Blanks(" "), values[keys[i]]);
  }

  // ----- a run -----

  lemma EolStarts(src: string)
    ensures EOL(src)[0] == '\r' || EOL(src)[0] == '\n'
  {
  }

  /** The missing keys whose new calls are recognized: the first one is lost when the
      token before the insertion point suppresses it. */
  function AddedKeys(src: string, ls: seq<Lexeme>, missing: seq<string>, anchor: string): seq<string>
    requires missing != [] && forall i :: 0 <= i < |ls| ==> Start(ls, i) <= |src|
  {
    if Suppressed(ls, Spot(src, ls, anchor)) then missing[1..] else missing
  }

  lemma FoundKeys(src: string, ls: seq<Lexeme>, missing: seq<string>, values: map<string, string>, anchor: string)
    requires missing != [] && Literals(values) && (forall k :: k in missing ==> k in values) && forall i :: 0 <= i < |ls| ==> Start(ls, i) <= |src|
    ensures var added := AddedKeys(src, ls, missing, anchor);
      && (forall k :: k in added ==> k in values)
      && Calls(missing, values) != [] && Found(ls, Spot(src, ls, anchor), Calls(missing, values)) == Calls(added, values)
  {
    hide Suppressed, Start, Spot, IsLiteral, LiteralPieces, Literals;
  }

  /** A run that adds calls. */
  lemma PatchAdds(src: string, d: Doc, ds: seq<Define>, values: map<string, string>, order: seq<string>, anchor: string)
      returns (src': string, d': Doc, ds': seq<Define>, mid: seq<Entry>, m: nat)
    requires Patchable(src, d, ds, values, |ds|) && !Duplicated(ds, values) && forall k :: k in order ==> k in values
    requires MissingKeys(order, Keys(ds)) != []
    requires forall i :: 0 <= i < |d.lexemes| ==> Start(d.lexemes, i) <= |src|
    ensures PatchConstants(src, values, order, anchor) == Ok(src')
    ensures Parse(src') == Ok(d') && Walk(d'.lexemes, 0) == Ok(ds') && AllWithin(d'.lexemes, ds')
    ensures SettledIn(Entries(d.lexemes, ds), mid, values, 0, |ds|) && m <= |mid|
    ensures var added := AddedKeys(src, d.lexemes, MissingKeys(order, Keys(ds)), anchor);
      (forall k :: k in added ==> k in values) && Entries(d'.lexemes, ds') == mid[..m] + NewEntries(Calls(added, values)) + mid[m..]
    ensures var c := Spot(src, d.lexemes, anchor);
      !Suppressed(d.lexemes, c) ==> Grown(d.lexemes, c, d'.lexemes, Calls(MissingKeys(order, Keys(ds)), values))
  {
    hide Grown, Parse, Walk, Start, Passes, WalkTo, Literals, Suppressed, Insertable, InPhp, CallLines, NotCall, Down, SettledIn, E.ApplySorted, E.ApplyEdits, ValidCalls, Around, Edits, InsertPosition, Spot, Duplicated, MissingKeys, Unswallowed, Found, AddedKeys;
    var ls, missing := d.lexemes, MissingKeys(order, Keys(ds));
    var c, pos, eol := Spot(src, ls, anchor), InsertPosition(src, ls, anchor), EOL(src);
    var k := InsertSpot(src, d, anchor);
    SpotInsertable(src, d, anchor);
    BeforeBlock(src, d, c, k);
    EolStarts(src);
    var lead := if pos > 0 && src[pos - 1] != '\n' then eol else "";
    SpotSplits(ls, c, ds);
    src', d', ds', mid := PatchAround(src, d, ds, values, c, k, lead, eol, missing, |ds|);
    FoundKeys(src, ls, missing, values, anchor);
    m := |WalkTo(ls, 0, c)|;
    var e := E.Edit(pos, pos, Block(src, pos, missing, values));
    AroundSorts(src, d, ds, values, m, e);
    SettledLength(Entries(ls, ds), mid, values);
  }

  lemma SettledLength(es: seq<Entry>, mid: seq<Entry>, values: map<string, string>)
    requires SettledIn(es, mid, values, 0, |es|)
    ensures |mid| == |es|
  {
  }

  /** A run that only replaces values. */
  lemma PatchReplaces(src: string, d: Doc, ds: seq<Define>, values: map<string, string>, order: seq<string>, anchor: string)
      returns (src': string, d': Doc, ds': seq<Define>)
    requires Patchable(src, d, ds, values, |ds|) && !Duplicated(ds, values) && forall k :: k in order ==> k in values
    requires MissingKeys(order, Keys(ds)) == []
    ensures PatchConstants(src, values, order, anchor) == Ok(src')
    ensures Parse(src') == Ok(d') && Walk(d'.lexemes, 0) == Ok(ds') && AllWithin(d'.lexemes, ds')
    ensures SettledIn(Entries(d.lexemes, ds), Entries(d'.lexemes, ds'), values, 0, |ds|)
    ensures O.Outline(d'.lexemes) == O.Outline(d.lexemes)
  {
    hide O.Outline, Parse, Walk, Start, End, Literals, Down, SettledIn, E.ApplySorted, E.ApplyEdits, Edits, InsertPosition, Duplicated, MissingKeys, Unswallowed;
    StartsWithin(src, d);
    src', d', ds' := EditsDown(src, d, ds, values, 0, |ds|, |src|);
    DownSorts(src, d, ds, values);
    var es := Edits(d.lexemes, ds, values, |ds|);
    assert es + [] == es;
  }

  lemma DownSorts(src: string, d: Doc, ds: seq<Define>, values: map<string, string>)
    requires Parse(src) == Ok(d) && Walk(d.lexemes, 0) == Ok(ds) && AllWithin(d.lexemes, ds)
    requires E.ApplySorted(src, |src|, Down(d.lexemes, ds, values, 0, |ds|)).Ok?
    ensures E.ApplyEdits(src, Edits(d.lexemes, ds, values, |ds|)) == E.ApplySorted(src, |src|, Down(d.lexemes, ds, values, 0, |ds|))
  {
    hide Parse, Walk, Start, End, E.ApplyEdits, E.ApplySorted, Edits, Down;
    var es, fs := Edits(d.lexemes, ds, values, |ds|), Down(d.lexemes, ds, values, 0, |ds|);
    DownEdits(d.lexemes, ds, values, |ds|);
    E.ReverseMultiset(es);
    if |ds| > 0 {
      DownSpans(src, d, ds, values, 0, |ds|);
      assert forall i :: 0 <= i < |fs| ==> Spans(fs[i], Start(d.lexemes, ds[0].first), |src|);
    } else {
      DownNone(d.lexemes, ds, values, 0);
    }
    E.FallingSorted(src, es, fs);
  }

  /** patchPHPConstants succeeds when no managed key is defined twice; then, unless
      a new call is lost, every managed key has exactly one call, which carries its
      value; and the calls of all other keys are the same tokens in the same order.
      A new call is lost exactly when the token before it suppresses it. */
  lemma ConstantsRun(src: string, values: map<string, string>, order: seq<string>, anchor: string)
    requires Literals(values) && Manages(order, values)
    requires Constants(src).Ok? && NoneSwallowed(src, values)
    requires forall k :: k in values ==> Count(Constants(src).value, k) <= 1
    ensures PatchConstants(src, values, order, anchor).Ok?
    ensures var r := Constants(PatchConstants(src, values, order, anchor).value);
      && r.Ok? && Unmanaged(r.value, values) == Unmanaged(Constants(src).value, values)
      && Carries(r.value, values) && (HoldsValues(r.value, values) <==> Writable(src, values, order, anchor))
  {
    hide Carries, Parse, Walk, Literals, PatchConstants, SettledIn, MissingKeys, Unswallowed, Suppressed, Entries, Calls, NewEntries, Duplicated, Keys, Count, HoldsValues, Unmanaged;
    var d := Parse(src).value;
    var ds := Walk(d.lexemes, 0).value;
    WalkWithin(d.lexemes, 0);
    StartsWithin(src, d);
    var es, missing := Entries(d.lexemes, ds), MissingKeys(order, Keys(ds));
    DuplicatedCounts(d.lexemes, ds, values);
    MissingDistinct(order, Keys(ds));
    if missing == [] {
      var src', d', ds' := PatchReplaces(src, d, ds, values, order, anchor);
      var es' := Entries(d'.lexemes, ds');
      NoCalls(values);
      assert es' == es'[..0] + [] + es'[0..];
      Replaced(es, es', 0, values, [], [], es');
    } else {
      var src', d', ds', mid, m := PatchAdds(src, d, ds, values, order, anchor);
      var added := AddedKeys(src, d.lexemes, missing, anchor);
      assert |missing[1..]| < |missing|;
      Replaced(es, mid, m, values, missing, added, Entries(d'.lexemes, ds'));
    }
  }

  /** In the writable case. */
  lemma ConstantsWritten(src: string, values: map<string, string>, order: seq<string>, anchor: string)
    requires Literals(values) && Manages(order, values)
    requires Constants(src).Ok? && Writable(src, values, order, anchor)
    requires forall k :: k in values ==> Count(Constants(src).value, k) <= 1
    ensures PatchConstants(src, values, order, anchor).Ok?
    ensures var r := Constants(PatchConstants(src, values, order, anchor).value);
      r.Ok? && HoldsValues(r.value, values) && Unmanaged(r.value, values) == Unmanaged(Constants(src).value, values)
  {
    hide Constants, PatchConstants, HoldsValues, Literals, Unmanaged, Count, Unswallowed, Suppressed, Spot, MissingKeys, Keys, Walk, Parse;
    ConstantsRun(src, values, order, anchor);
  }

  lemma NoCalls(values: map<string, string>)
    requires Literals(values)
    ensures NewEntries(Calls([], values)) == []
  {
  }

  // ----- a second run -----

  /** Edits that write what is there change nothing. */
  lemma {:induction false} SameDown(src: string, d: Doc, ds: seq<Define>, values: map<string, string>, k: nat, previous: nat)
    requires Parse(src) == Ok(d) && Walk(d.lexemes, 0) == Ok(ds) && AllWithin(d.lexemes, ds) && k <= |ds| && previous <= |src|
    requires forall i :: 0 <= i < k ==> End(d.lexemes, ds[i].last - 1) <= previous
    requires forall i :: 0 <= i < k && ds[i].key in values ==> ValueText(d.lexemes[ds[i].first..ds[i].last]) == values[ds[i].key]
    ensures E.ApplySorted(src, previous, Down(d.lexemes, ds, values, 0, k)) == Ok(src)
    decreases k
  {
    hide Parse, Walk, Start, End, ValueText, Down, E.ApplySorted;
    if k > 0 {
      var c := ds[k - 1];
      if c.key in values {
        SameStep(src, d, ds, values, k, previous);
        SameDown(src, d, ds, values, k - 1, Start(d.lexemes, c.first));
      } else {
        SameDown(src, d, ds, values, k - 1, previous);
        SkipDown(d.lexemes, ds, values, 0, k);
      }
    } else {
      NoEdits(src, previous, d.lexemes, ds, values, 0);
    }
  }

  lemma SkipDown(ls: seq<Lexeme>, ds: seq<Define>, values: map<string, string>, lo: nat, k: nat)
    requires AllWithin(ls, ds) && lo < k <= |ds| && ds[k - 1].key !in values
    ensures Down(ls, ds, values, lo, k) == Down(ls, ds, values, lo, k - 1)
  {
  }

  lemma SameStep(src: string, d: Doc, ds: seq<Define>, values: map<string, string>, k: nat, previous: nat)
    requires Parse(src) == Ok(d) && Walk(d.lexemes, 0) == Ok(ds) && AllWithin(d.lexemes, ds) && 0 < k <= |ds| && previous <= |src|
    requires var c := ds[k - 1]; c.key in values && End(d.lexemes, c.last - 1) <= previous && ValueText(d.lexemes[c.first..c.last]) == values[c.key]
    ensures Start(d.lexemes, ds[k - 1].first) <= |src|
    ensures forall i :: 0 <= i < k - 1 ==> End(d.lexemes, ds[i].last - 1) <= Start(d.lexemes, ds[k - 1].first)
    ensures E.ApplySorted(src, previous, Down(d.lexemes, ds, values, 0, k)) == E.ApplySorted(src, Start(d.lexemes, ds[k - 1].first), Down(d.lexemes, ds, values, 0, k - 1))
  {
    hide Parse, Walk, Start, End, ValueText, Down, E.ApplySorted;
    var c := ds[k - 1];
    ValueOffsets(src, d, c.first, c.last - c.first);
    var a, b := Start(d.lexemes, c.first), End(d.lexemes, c.last - 1);
    assert src == src[..a] + src[a..b] + src[b..];
    DownStep(d.lexemes, ds, values, 0, k, src, previous);
    forall i | 0 <= i < k - 1
      ensures End(d.lexemes, ds[i].last - 1) <= a
    {
      BeforeCall(d.lexemes, ds, i, k - 1);
      StartMonotone(src, d, ds[i].last - 1, c.first);
    }
  }

  lemma {:induction false} NothingMissing(order: seq<string>, written: set<string>)
    requires forall k :: k in order ==> k in written
    ensures MissingKeys(order, written) == []
  {
    if order != [] {
      assert order[0] in order;
      NothingMissing(order[1..], written);
    }
  }

  /** A source that holds the values already is left alone. */
  lemma ConstantsSame(src: string, values: map<string, string>, order: seq<string>, anchor: string)
    requires (forall k :: k in order ==> k in values) && Constants(src).Ok? && HoldsValues(Constants(src).value, values)
    ensures PatchConstants(src, values, order, anchor) == Ok(src)
  {
    hide Parse, Walk, Start, End, Count, Duplicated, MissingKeys, Keys, InsertPosition, ValueText, Down, Edits;
    var d := Parse(src).value;
    var ds := Walk(d.lexemes, 0).value;
    WalkWithin(d.lexemes, 0);
    StartsWithin(src, d);
    var es := Entries(d.lexemes, ds);
    DuplicatedCounts(d.lexemes, ds, values);
    NothingMissing(order, Keys(ds));
    forall i | 0 <= i < |ds| && ds[i].key in values
      ensures ValueText(d.lexemes[ds[i].first..ds[i].last]) == values[ds[i].key]
    {
      assert es[i] == EntryOf(d.lexemes, ds[i]);
    }
    SameDown(src, d, ds, values, |ds|, |src|);
    DownSorts(src, d, ds, values);
    assert Edits(d.lexemes, ds, values, |ds|) + [] == Edits(d.lexemes, ds, values, |ds|);
  }

  /** A second run is the identity. */
  lemma ConstantsIdempotent(src: string, values: map<string, string>, order: seq<string>, anchor: string)
    requires Literals(values) && Manages(order, values)
    requires Constants(src).Ok? && Writable(src, values, order, anchor)
    requires PatchConstants(src, values, order, anchor).Ok?
    ensures PatchConstants(PatchConstants(src, values, order, anchor).value, values, order, anchor) == PatchConstants(src, values, order, anchor)
  {
    hide Constants, PatchConstants, HoldsValues, Writable, Literals;
    PatchedOnce(src, values, order, anchor);
    ConstantsWritten(src, values, order, anchor);
    ConstantsSame(PatchConstants(src, values, order, anchor).value, values, order, anchor);
  }

  lemma {:induction false} SameGrowth(src: string, d: Doc, ds: seq<Define>, values: map<string, string>, k: nat)
    requires Parse(src) == Ok(d) && Walk(d.lexemes, 0) == Ok(ds) && AllWithin(d.lexemes, ds) && k <= |ds|
    requires Carries(Entries(d.lexemes, ds), values)
    ensures E.Growth(Edits(d.lexemes, ds, values, k)) == 0
  {
    hide Parse, Walk, Start, End, ValueText, Carries, ValueEdit, Entries, E.Growth;
    if k > 0 {
      SameGrowth(src, d, ds, values, k - 1);
      var c := ds[k - 1];
      if c.key in values {
        SameLength(src, d, ds, values, k - 1);
        E.GrowthConcat(Edits(d.lexemes, ds, values, k - 1), [ValueEdit(d.lexemes, c, values[c.key])]);
        OneGrowth(ValueEdit(d.lexemes, c, values[c.key]));
      } else {
        assert Edits(d.lexemes, ds, values, k - 1) + [] == Edits(d.lexemes, ds, values, k - 1);
      }
    } else {
      NoGrowth();
    }
  }

  lemma NoGrowth()
    ensures E.Growth([]) == 0
  {
  }

  lemma SameLength(src: string, d: Doc, ds: seq<Define>, values: map<string, string>, i: nat)
    requires Parse(src) == Ok(d) && Walk(d.lexemes, 0) == Ok(ds) && AllWithin(d.lexemes, ds) && i < |ds| && ds[i].key in values
    requires Carries(Entries(d.lexemes, ds), values)
    ensures var e := ValueEdit(d.lexemes, ds[i], values[ds[i].key]); |e.replacement| == e.end - e.start
  {
    hide Parse, Walk, Start, End, ValueText;
    ValueOffsets(src, d, ds[i].first, ds[i].last - ds[i].first);
    assert Entries(d.lexemes, ds)[i] == EntryOf(d.lexemes, ds[i]);
  }

  lemma OneGrowth(e: E.Edit)
    ensures E.Growth([e]) == |e.replacement| - (e.end - e.start)
  {
  }

  /** Where the values are carried but a key is missing, a run makes the text longer. */
  lemma MissingGrows(src: string, values: map<string, string>, order: seq<string>, anchor: string)
    requires Manages(order, values) && Constants(src).Ok? && Carries(Constants(src).value, values) && !HoldsValues(Constants(src).value, values)
    ensures PatchConstants(src, values, order, anchor) != Ok(src)
  {
    hide Parse, Walk, Start, End, Count, Duplicated, MissingKeys, Keys, InsertPosition, Edits, E.ApplyEdits, E.Growth, Carries, Distinct, CallLines;
    if PatchConstants(src, values, order, anchor).Ok? {
      PatchedOnce(src, values, order, anchor);
      var d := Parse(src).value;
      var ds := Walk(d.lexemes, 0).value;
      WalkWithin(d.lexemes, 0);
      StartsWithin(src, d);
      DuplicatedCounts(d.lexemes, ds, values);
      var key :| key in values && Count(Entries(d.lexemes, ds), key) != 1;
      var missing, pos := MissingKeys(order, Keys(ds)), InsertPosition(src, d.lexemes, anchor);
      assert key in missing;
      var es, e := Edits(d.lexemes, ds, values, |ds|), E.Edit(pos, pos, Block(src, pos, missing, values));
      assert PatchConstants(src, values, order, anchor) == E.ApplyEdits(src, es + [e]);
      E.EditsGrowth(src, es + [e]);
      E.GrowthConcat(es, [e]);
      OneGrowth(e);
      SameGrowth(src, d, ds, values, |ds|);
      BlockNonempty(src, pos, missing, values);
    }
  }

  lemma BlockNonempty(src: string, pos: nat, missing: seq<string>, values: map<string, string>)
    requires pos <= |src| && forall k :: k in missing ==> k in values
    ensures |Block(src, pos, missing, values)| > 0
  {
  }

  /** Where no value falls into a comment, a second run is the identity exactly when
      the calls that the first one added, if any, are not suppressed. */
  lemma ConstantsAgain(src: string, values: map<string, string>, order: seq<string>, anchor: string)
    requires Literals(values) && Manages(order, values)
    requires Constants(src).Ok? && NoneSwallowed(src, values)
    requires PatchConstants(src, values, order, anchor).Ok?
    ensures PatchConstants(PatchConstants(src, values, order, anchor).value, values, order, anchor) == PatchConstants(src, values, order, anchor) <==> Writable(src, values, order, anchor)
  {
    hide Constants, PatchConstants, HoldsValues, Carries, Literals, Writable, NoneSwallowed, Unmanaged, Distinct;
    PatchedOnce(src, values, order, anchor);
    ConstantsRun(src, values, order, anchor);
    var out := PatchConstants(src, values, order, anchor).value;
    if HoldsValues(Constants(out).value, values) {
      ConstantsSame(out, values, order, anchor);
    } else {
      MissingGrows(out, values, order, anchor);
    }
  }

  /** A source that is patched defines each managed key at most once. */
  lemma PatchedOnce(src: string, values: map<string, string>, order: seq<string>, anchor: string)
    requires (forall k :: k in order ==> k in values) && PatchConstants(src, values, order, anchor).Ok?
    ensures Constants(src).Ok? && forall k :: k in values ==> Count(Constants(src).value, k) <= 1
  {
    hide Parse, Walk, Count, Duplicated, E.ApplyEdits, InsertPosition;
    var d := Parse(src).value;
    var ds := Walk(d.lexemes, 0).value;
    WalkWithin(d.lexemes, 0);
    DuplicatedCounts(d.lexemes, ds, values);
  }
}
