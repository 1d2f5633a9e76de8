/** applyPHPEdits: spans of a text are replaced, the last one first. */
module PhpEdits {
  import opened Text
  import opened PhpLexer

  datatype Edit = Edit(start: int, end: int, replacement: string)

  /** The order of the sort: later starts first, then longer spans first. */
  predicate Before(a: Edit, b: Edit) {
    a.start > b.start || (a.start == b.start && a.end >= b.end)
  }

  predicate Sorted(es: seq<Edit>) {
    forall i, j :: 0 <= i < j < |es| ==> Before(es[i], es[j])
  }

  function Insert(e: Edit, es: seq<Edit>): seq<Edit> {
    if es == [] || Before(e, es[0]) then [e] + es else [es[0]] + Insert(e, es[1..])
  }

  /** A sorted rearrangement of the edits. */
  function Sort(es: seq<Edit>): seq<Edit> {
    if es == [] then [] else Insert(es[0], Sort(es[1..]))
  }

  /** The loop: every edit must end at or before the start of the previous one. */
  function ApplySorted(src: string, previous: nat, es: seq<Edit>): Result<string, PhpError>
    requires previous <= |src|
    decreases |es|
  {
    if es == [] then Ok(src)
    else
      var e := es[0];
      if e.start < 0 || e.end < e.start || e.end > previous then Err(OverlappingEdits)
      else ApplySorted(src[..e.start] + e.replacement + src[e.end..], e.start, es[1..])
  }

  /** applyPHPEdits */
  function ApplyEdits(src: string, es: seq<Edit>): Result<string, PhpError> {
    ApplySorted(src, |src|, Sort(es))
  }

  // ----- sorting -----

  lemma {:induction false} InsertSorted(e: Edit, es: seq<Edit>)
    requires Sorted(es)
    ensures Sorted(Insert(e, es)) && multiset(Insert(e, es)) == multiset{e} + multiset(es)
  {
    hide Before;
    if es == [] {
      assert Insert(e, es) == [e];
    } else if !Before(e, es[0]) {
      InsertSorted(e, es[1..]);
      BeforeTotal(e, es[0]);
      var r := Insert(e, es[1..]);
      assert es == [es[0]] + es[1..];
      forall j | 0 <= j < |r|
        ensures Before(es[0], r[j])
      {
        assert r[j] in multiset(r);
        assert r[j] == e || r[j] in es[1..];
      }
      SortedCons(es[0], r);
    } else {
      forall j | 0 <= j < |es|
        ensures Before(e, es[j])
      {
        if j > 0 { BeforeTrans(e, es[0], es[j]); }
      }
      SortedCons(e, es);
    }
  }

  lemma BeforeTotal(a: Edit, b: Edit)
    ensures Before(a, b) || Before(b, a)
  {
  }

  lemma BeforeTrans(a: Edit, b: Edit, c: Edit)
    requires Before(a, b) && Before(b, c)
    ensures Before(a, c)
  {
  }

  lemma SortedCons(e: Edit, es: seq<Edit>)
    requires Sorted(es) && forall j :: 0 <= j < |es| ==> Before(e, es[j])
    ensures Sorted([e] + es) && multiset([e] + es) == multiset{e} + multiset(es)
  {
  }

  lemma {:induction false} SortSorts(es: seq<Edit>)
    ensures Sorted(Sort(es)) && multiset(Sort(es)) == multiset(es)
  {
    if es != [] {
      SortSorts(es[1..]);
      InsertSorted(es[0], Sort(es[1..]));
      assert es == [es[0]] + es[1..];
    }
  }

  // ----- what the edits mean -----

  /** Left-to-right simultaneous replacement: gap, replacement, gap, ... for spans
      in ascending order. */
  function Weave(src: string, pos: nat, es: seq<Edit>): string
    requires pos <= |src| && Ascending(src, pos, es)
    decreases |es|
  {
    if es == [] then src[pos..]
    else src[pos..es[0].start] + es[0].replacement + Weave(src, es[0].end, es[1..])
  }

  predicate Ascending(src: string, pos: nat, es: seq<Edit>)
    decreases |es|
  {
    es == [] || (pos <= es[0].start <= es[0].end <= |src| && Ascending(src, es[0].end, es[1..]))
  }

  function Reverse(es: seq<Edit>): seq<Edit> {
    if es == [] then [] else Reverse(es[1..]) + [es[0]]
  }

  /** Two spans do not overlap; an insertion may touch a span at either end. */
  predicate Apart(a: Edit, b: Edit) { a.end <= b.start || b.end <= a.start }

  predicate InBounds(src: string, e: Edit) { 0 <= e.start <= e.end <= |src| }

  predicate Disjoint(src: string, es: seq<Edit>) {
    && (forall i :: 0 <= i < |es| ==> InBounds(src, es[i]))
    && (forall i, j :: 0 <= i < j < |es| ==> Apart(es[i], es[j]))
  }

  /** The growth of the text. */
  function Growth(es: seq<Edit>): int {
    if es == [] then 0 else |es[0].replacement| - (es[0].end - es[0].start) + Growth(es[1..])
  }

  lemma {:induction false} AscendingSnoc(src: string, pos: nat, es: seq<Edit>, e: Edit)
    requires pos <= |src|
    ensures Ascending(src, pos, es + [e]) <==>
      Ascending(src, pos, es) && (if es == [] then pos else es[|es| - 1].end) <= e.start <= e.end <= |src|
    decreases |es|
  {
    if es == [] {
      assert es + [e] == [e] && [e][1..] == [];
    } else {
      assert (es + [e])[1..] == es[1..] + [e];
      if Ascending(src, pos, es) || Ascending(src, pos, es + [e]) {
        AscendingSnoc(src, es[0].end, es[1..], e);
      }
    }
  }

  /** An edit at the right end of a weave can be applied first. */
  lemma WeaveSole(src: string, src': string, pos: nat, e: Edit)
    requires pos <= e.start && InBounds(src, e) && src' == src[..e.start] + e.replacement + src[e.end..]
    ensures pos <= |src'| && Ascending(src, pos, [e]) && Ascending(src', pos, []) && Weave(src', pos, []) == Weave(src, pos, [e])
  {
  }

  lemma {:induction false} WeaveSnoc(src: string, src': string, pos: nat, es: seq<Edit>, e: Edit)
    requires pos <= |src| && Ascending(src, pos, es + [e]) && InBounds(src, e)
    requires src' == src[..e.start] + e.replacement + src[e.end..]
    ensures Ascending(src, pos, es) && (if es == [] then pos else es[|es| - 1].end) <= e.start
    ensures Ascending(src', pos, es) && pos <= |src'| && Weave(src', pos, es) == Weave(src, pos, es + [e])
    decreases |es|
  {
    hide Weave;
    AscendingSnoc(src, pos, es, e);
    if es == [] {
      WeaveSole(src, src', pos, e);
      assert es + [e] == [e];
    } else {
      LastEnd(src, pos, es);
      var f, rest := es[0], es[1..];
      assert (es + [e])[1..] == rest + [e];
      WeaveSnoc(src, src', f.end, rest, e);
      WeaveStep(src', pos, es);
      WeaveStep(src, pos, es + [e]);
      assert src'[pos..f.start] == src[pos..f.start];
    }
  }

  lemma WeaveStep(src: string, pos: nat, es: seq<Edit>)
    requires pos <= |src| && es != [] && pos <= es[0].start <= es[0].end <= |src| && Ascending(src, es[0].end, es[1..])
    ensures Ascending(src, pos, es)
    ensures Weave(src, pos, es) == src[pos..es[0].start] + es[0].replacement + Weave(src, es[0].end, es[1..])
  {
  }

  lemma {:induction false} LastEnd(src: string, pos: nat, es: seq<Edit>)
    requires Ascending(src, pos, es) && pos <= |src|
    ensures es != [] ==> pos <= es[0].start <= es[0].end <= es[|es| - 1].end <= |src|
    decreases |es|
  {
    if |es| > 1 { LastEnd(src, es[0].end, es[1..]); }
  }

  /** The right-to-left loop succeeds exactly on ascending spans, and computes
      their simultaneous replacement. */
  lemma {:induction false} LoopWeaves(src: string, previous: nat, es: seq<Edit>)
    requires previous <= |src|
    ensures ApplySorted(src, previous, es).Ok? <==>
      Ascending(src, 0, Reverse(es)) && (es != [] ==> es[0].end <= previous)
    ensures ApplySorted(src, previous, es).Ok? ==> ApplySorted(src, previous, es) == Ok(Weave(src, 0, Reverse(es)))
    decreases |es|
  {
    if es != [] {
      var e, rest := es[0], es[1..];
      AscendingSnoc(src, 0, Reverse(rest), e);
      ReverseLast(rest);
      if 0 <= e.start <= e.end <= previous {
        var src' := src[..e.start] + e.replacement + src[e.end..];
        LoopWeaves(src', e.start, rest);
        if rest == [] || rest[0].end <= e.start { PrefixAscending(src, src', e.start, Reverse(rest)); }
        if Ascending(src, 0, Reverse(es)) {
          WeaveSnoc(src, src', 0, Reverse(rest), e);
        }
      } else if Ascending(src, 0, Reverse(es)) {
        assert Reverse(rest) != [] ==> Reverse(rest)[|rest| - 1].end >= 0 by { LastEnd(src, 0, Reverse(rest)); }
      }
    }
  }

  lemma {:induction false} ReverseLast(es: seq<Edit>)
    ensures |Reverse(es)| == |es|
    ensures forall i :: 0 <= i < |es| ==> Reverse(es)[i] == es[|es| - 1 - i]
  {
    if es != [] { ReverseLast(es[1..]); }
  }

  /** Spans that end within a common prefix are ascending in both texts. */
  lemma {:induction false} PrefixAscending(src: string, src': string, n: nat, es: seq<Edit>)
    requires n <= |src| && n <= |src'| && (es != [] ==> es[|es| - 1].end <= n)
    ensures Ascending(src, 0, es) <==> Ascending(src', 0, es)
  {
    if es != [] {
      if Ascending(src, 0, es) { PrefixFrom(src, src', n, 0, es); }
      if Ascending(src', 0, es) { PrefixFrom(src', src, n, 0, es); }
    }
  }

  lemma {:induction false} PrefixFrom(src: string, src': string, n: nat, pos: nat, es: seq<Edit>)
    requires n <= |src| && n <= |src'| && pos <= |src| && es != [] && es[|es| - 1].end <= n && Ascending(src, pos, es)
    ensures Ascending(src', pos, es)
    decreases |es|
  {
    LastEnd(src, pos, es);
    if |es| > 1 { PrefixFrom(src, src', n, es[0].end, es[1..]); }
  }

  /** In sorted order, in-bounds spans are disjoint exactly when they ascend from
      right to left. */
  lemma {:induction false} DisjointAscends(src: string, es: seq<Edit>)
    requires Sorted(es)
    ensures Disjoint(src, es) <==> Ascending(src, 0, Reverse(es))
  {
    if es != [] {
      var e, rest := es[0], es[1..];
      AscendingSnoc(src, 0, Reverse(rest), e);
      ReverseLast(rest);
      DisjointAscends(src, rest);
      if Disjoint(src, es) {
        assert Disjoint(src, rest) by {
          assert forall i :: 0 <= i < |rest| ==> rest[i] == es[i + 1];
        }
        if rest != [] {
          assert Before(es[0], es[1]) && Apart(es[0], es[1]) && InBounds(src, es[1]);
        }
      }
      if Ascending(src, 0, Reverse(es)) { DisjointCons(src, e, rest); }
      assert [e] + rest == es;
    }
  }

  lemma DisjointCons(src: string, e: Edit, rest: seq<Edit>)
    requires Sorted([e] + rest) && Disjoint(src, rest) && InBounds(src, e) && (rest != [] ==> rest[0].end <= e.start)
    ensures Disjoint(src, [e] + rest)
  {
    var es := [e] + rest;
    forall i | 0 <= i < |rest|
      ensures rest[i].end <= e.start && InBounds(src, rest[i])
    {
      assert InBounds(src, rest[i]) && InBounds(src, rest[0]);
      assert i > 0 ==> Apart(rest[0], rest[i]) && Before(es[1], es[i + 1]);
    }
    forall i, j | 0 <= i < j < |es|
      ensures Apart(es[i], es[j])
    {
      if i > 0 { assert es[i] == rest[i - 1]; }
      assert es[j] == rest[j - 1];
    }
    assert forall i :: 0 < i < |es| ==> es[i] == rest[i - 1];
  }

  /** A disjoint set of spans stays disjoint in any order. */
  lemma DisjointOrder(src: string, es: seq<Edit>, fs: seq<Edit>)
    requires multiset(es) == multiset(fs) && Disjoint(src, es)
    ensures Disjoint(src, fs)
  {
    forall i | 0 <= i < |fs|
      ensures InBounds(src, fs[i])
    {
      assert fs[i] in multiset(es);
    }
    forall i, j | 0 <= i < j < |fs|
      ensures Apart(fs[i], fs[j])
    {
      assert fs[i] in multiset(es) && fs[j] in multiset(es);
      if fs[i] == fs[j] {
        TwiceInSequence(fs, i, j);
        var k, l := TwiceAt(es, fs[i]);
        assert Apart(es[k], es[l]);
      } else {
        var k :| 0 <= k < |es| && es[k] == fs[i];
        var l :| 0 <= l < |es| && es[l] == fs[j];
        assert if k < l then Apart(es[k], es[l]) else Apart(es[l], es[k]);
      }
    }
  }

  lemma TwiceInSequence(es: seq<Edit>, i: nat, j: nat)
    requires i < j < |es| && es[i] == es[j]
    ensures multiset(es)[es[i]] >= 2
  {
    var a, b := es[..j], es[j..];
    assert es == a + b;
    assert a[i] in multiset(a) && b[0] in multiset(b);
  }

  lemma {:induction false} TwiceAt(es: seq<Edit>, e: Edit) returns (k: nat, l: nat)
    requires multiset(es)[e] >= 2
    ensures k < l < |es| && es[k] == e == es[l]
  {
    assert es == [es[0]] + es[1..];
    if es[0] == e {
      assert e in multiset(es[1..]);
      l :| 0 < l < |es| && es[l] == e;
      k := 0;
    } else {
      k, l := TwiceAt(es[1..], e);
      k, l := k + 1, l + 1;
    }
  }

  /** applyPHPEdits succeeds exactly when the spans are in bounds and do not
      overlap, and is then the simultaneous replacement of all of them. */
  lemma EditsRefine(src: string, es: seq<Edit>)
    ensures ApplyEdits(src, es).Ok? <==> Disjoint(src, es)
    ensures Disjoint(src, es) ==>
      Ascending(src, 0, Reverse(Sort(es))) && ApplyEdits(src, es) == Ok(Weave(src, 0, Reverse(Sort(es))))
  {
    SortSorts(es);
    LoopWeaves(src, |src|, Sort(es));
    DisjointAscends(src, Sort(es));
    if Disjoint(src, es) { DisjointOrder(src, es, Sort(es)); }
    if Disjoint(src, Sort(es)) { DisjointOrder(src, Sort(es), es); }
    if Sort(es) != [] && Ascending(src, 0, Reverse(Sort(es))) {
      ReverseLast(Sort(es));
      LastEnd(src, 0, Reverse(Sort(es)));
    }
  }

  lemma {:induction false} WeaveGrowth(src: string, pos: nat, es: seq<Edit>)
    requires pos <= |src| && Ascending(src, pos, es)
    ensures |Weave(src, pos, es)| == |src| - pos + Growth(es)
    decreases |es|
  {
    if es != [] { WeaveGrowth(src, es[0].end, es[1..]); }
  }

  lemma {:induction false} GrowthConcat(a: seq<Edit>, b: seq<Edit>)
    ensures Growth(a + b) == Growth(a) + Growth(b)
  {
    if a == [] {
      assert a + b == b;
    } else {
      assert (a + b)[1..] == a[1..] + b;
      GrowthConcat(a[1..], b);
    }
  }

  lemma CutMultiset(es: seq<Edit>, k: nat)
    requires k < |es|
    ensures multiset(es[..k] + es[k + 1..]) == multiset(es) - multiset{es[k]}
  {
    assert es == es[..k] + [es[k]] + es[k + 1..];
  }

  lemma GrowthCut(es: seq<Edit>, k: nat)
    requires k < |es|
    ensures Growth(es) == |es[k].replacement| - (es[k].end - es[k].start) + Growth(es[..k] + es[k + 1..])
  {
    var a, b := es[..k], es[k..];
    assert es == a + b;
    GrowthConcat(a, b);
    GrowthConcat(a, es[k + 1..]);
    assert b[1..] == es[k + 1..];
  }

  lemma HeadMultiset(es: seq<Edit>)
    requires es != []
    ensures multiset(es) == multiset(es[1..]) + multiset{es[0]}
  {
    assert es == [es[0]] + es[1..];
  }

  lemma Position(e: Edit, fs: seq<Edit>) returns (k: nat)
    requires e in multiset(fs)
    ensures k < |fs| && fs[k] == e
  {
    k :| 0 <= k < |fs| && fs[k] == e;
  }

  lemma Removed(m: multiset<Edit>, n: multiset<Edit>, e: Edit)
    requires m == n + multiset{e}
    ensures m - multiset{e} == n
  {
  }

  /** The head of one order, taken out of the other. */
  lemma HeadIn(es: seq<Edit>, fs: seq<Edit>) returns (k: nat)
    requires multiset(es) == multiset(fs) && es != []
    ensures k < |fs| && fs[k] == es[0] && multiset(es[1..]) == multiset(fs[..k] + fs[k + 1..])
  {
    HeadMultiset(es);
    k := Position(es[0], fs);
    CutMultiset(fs, k);
    Removed(multiset(fs), multiset(es[1..]), es[0]);
  }

  lemma {:induction false} GrowthOrder(es: seq<Edit>, fs: seq<Edit>)
    requires multiset(es) == multiset(fs)
    ensures Growth(es) == Growth(fs)
  {
    if es == [] {
      assert |fs| == |multiset(fs)| == 0;
    } else {
      var k := HeadIn(es, fs);
      GrowthCut(fs, k);
      GrowthOrder(es[1..], fs[..k] + fs[k + 1..]);
    }
  }

  /** The text grows by exactly what the edits add. */
  lemma EditsGrowth(src: string, es: seq<Edit>)
    requires ApplyEdits(src, es).Ok?
    ensures |ApplyEdits(src, es).value| == |src| + Growth(es)
  {
    EditsRefine(src, es);
    WeaveGrowth(src, 0, Reverse(Sort(es)));
    SortSorts(es);
    ReverseMultiset(Sort(es));
    GrowthOrder(Reverse(Sort(es)), es);
  }

  lemma {:induction false} ReverseMultiset(es: seq<Edit>)
    ensures multiset(Reverse(es)) == multiset(es)
  {
    if es != [] {
      ReverseMultiset(es[1..]);
      assert es == [es[0]] + es[1..];
    }
  }

  /** No two different insertions share an offset. */
  predicate DistinctInsertions(es: seq<Edit>) {
    forall e, f :: e in es && f in es && e.start == e.end == f.start == f.end ==> e == f
  }

  /** Two sorted orders of the same disjoint edits start alike. */
  lemma SameHead(src: string, es: seq<Edit>, fs: seq<Edit>)
    requires multiset(es) == multiset(fs) && Sorted(es) && Sorted(fs) && es != [] && fs != []
    requires Disjoint(src, es) && DistinctInsertions(es)
    ensures es[0] == fs[0]
  {
    assert es[0] in multiset(fs) && fs[0] in multiset(es);
    var k :| 0 <= k < |fs| && fs[k] == es[0];
    var l :| 0 <= l < |es| && es[l] == fs[0];
    if k > 0 && l > 0 {
      assert Before(fs[0], fs[k]) && Before(es[0], es[l]);
      assert Apart(es[0], es[l]) && InBounds(src, es[0]);
      assert es[0] in es && es[l] in es;
    }
  }

  lemma InsertionsOrder(es: seq<Edit>, fs: seq<Edit>)
    requires multiset(es) == multiset(fs) && DistinctInsertions(es)
    ensures DistinctInsertions(fs)
  {
    assert forall e :: e in fs ==> e in multiset(es);
  }

  lemma TailOf(src: string, es: seq<Edit>)
    requires es != [] && Sorted(es) && Disjoint(src, es) && DistinctInsertions(es)
    ensures Sorted(es[1..]) && Disjoint(src, es[1..]) && DistinctInsertions(es[1..])
    ensures multiset(es[1..]) == multiset(es) - multiset{es[0]}
  {
    TailMultiset(es);
    TailOrder(src, es);
  }

  lemma TailMultiset(es: seq<Edit>)
    requires es != []
    ensures multiset(es[1..]) == multiset(es) - multiset{es[0]}
  {
    CutMultiset(es, 0);
    assert es[..0] + es[1..] == es[1..];
  }

  lemma TailOrder(src: string, es: seq<Edit>)
    requires es != [] && Sorted(es) && Disjoint(src, es) && DistinctInsertions(es)
    ensures Sorted(es[1..]) && Disjoint(src, es[1..]) && DistinctInsertions(es[1..])
  {
  }

  /** Sorted orders of the same disjoint edits agree. */
  lemma {:induction false} SortedUnique(src: string, es: seq<Edit>, fs: seq<Edit>)
    requires multiset(es) == multiset(fs) && Sorted(es) && Sorted(fs)
    requires Disjoint(src, es) && Disjoint(src, fs) && DistinctInsertions(es) && DistinctInsertions(fs)
    ensures es == fs
  {
    hide Sorted, Disjoint, DistinctInsertions;
    assert |es| == |multiset(es)| == |multiset(fs)| == |fs|;
    if es != [] {
      SameHead(src, es, fs);
      TailOf(src, es);
      TailOf(src, fs);
      SortedUnique(src, es[1..], fs[1..]);
      assert es == [es[0]] + es[1..] && fs == [fs[0]] + fs[1..];
    }
  }

  /** The order in which the edits are given does not matter. */
  lemma EditsOrder(src: string, es: seq<Edit>, fs: seq<Edit>)
    requires multiset(es) == multiset(fs) && DistinctInsertions(es)
    ensures ApplyEdits(src, es).Ok? <==> ApplyEdits(src, fs).Ok?
    ensures ApplyEdits(src, es).Ok? ==> ApplyEdits(src, es) == ApplyEdits(src, fs)
  {
    EditsRefine(src, es);
    EditsRefine(src, fs);
    SortSorts(es);
    SortSorts(fs);
    if Disjoint(src, es) {
      DisjointOrder(src, es, fs);
      DisjointOrder(src, es, Sort(es));
      DisjointOrder(src, es, Sort(fs));
      InsertionsOrder(es, Sort(es));
      InsertionsOrder(es, Sort(fs));
      SortedUnique(src, Sort(es), Sort(fs));
    }
    if Disjoint(src, fs) { DisjointOrder(src, fs, es); }
  }

  lemma {:induction false} LoopFalls(src: string, previous: nat, fs: seq<Edit>)
    requires previous <= |src| && ApplySorted(src, previous, fs).Ok?
    ensures forall i :: 0 <= i < |fs| ==> 0 <= fs[i].start <= fs[i].end <= if i == 0 then previous else fs[i - 1].start
    decreases |fs|
  {
    if fs != [] {
      var e := fs[0];
      LoopFalls(src[..e.start] + e.replacement + src[e.end..], e.start, fs[1..]);
      assert forall i :: 0 < i < |fs| ==> fs[i] == fs[1..][i - 1];
    }
  }

  lemma {:induction false} Falling(fs: seq<Edit>, i: nat, j: nat)
    requires i < j < |fs| && forall k :: 0 < k < |fs| ==> fs[k].start < fs[k - 1].start
    ensures fs[j].start < fs[i].start
    decreases j
  {
    if i < j - 1 { Falling(fs, i, j - 1); }
  }

  /** Edits that the loop accepts in a falling order are applied in that order. */
  lemma FallingSorted(src: string, es: seq<Edit>, fs: seq<Edit>)
    requires multiset(es) == multiset(fs) && ApplySorted(src, |src|, fs).Ok?
    requires forall i :: 0 < i < |fs| ==> fs[i].start < fs[i].end || fs[i].start < fs[i - 1].start
    ensures ApplyEdits(src, es) == ApplySorted(src, |src|, fs)
  {
    LoopFalls(src, |src|, fs);
    forall i, j | 0 <= i < j < |fs|
      ensures fs[j].start < fs[i].start
    {
      Falling(fs, i, j);
    }
    assert Sorted(fs);
    LoopWeaves(src, |src|, fs);
    DisjointAscends(src, fs);
    assert DistinctInsertions(fs);
    SortSorts(es);
    DisjointOrder(src, fs, Sort(es));
    InsertionsOrder(fs, Sort(es));
    SortedUnique(src, Sort(es), fs);
  }

  function LastStart(previous: nat, es: seq<Edit>): int {
    if es == [] then previous else es[|es| - 1].start
  }

  /** The loop can be cut anywhere. */
  lemma {:induction false} ApplyConcat(src: string, previous: nat, a: seq<Edit>, b: seq<Edit>)
    requires previous <= |src| && ApplySorted(src, previous, a).Ok?
    ensures 0 <= LastStart(previous, a) <= |ApplySorted(src, previous, a).value|
    ensures ApplySorted(src, previous, a + b) == ApplySorted(ApplySorted(src, previous, a).value, LastStart(previous, a), b)
    decreases |a|
  {
    if a == [] {
      assert a + b == b;
    } else {
      var e := a[0];
      assert (a + b)[1..] == a[1..] + b;
      ApplyConcat(src[..e.start] + e.replacement + src[e.end..], e.start, a[1..], b);
    }
  }

  lemma {:induction false} ReverseConcat(a: seq<Edit>, b: seq<Edit>)
    ensures Reverse(a + b) == Reverse(b) + Reverse(a)
  {
    if a == [] {
      assert a + b == b && Reverse(b) + [] == Reverse(b);
    } else {
      assert (a + b)[1..] == a[1..] + b;
      ReverseConcat(a[1..], b);
      assert Reverse(b) + Reverse(a[1..]) + [a[0]] == Reverse(b) + (Reverse(a[1..]) + [a[0]]);
    }
  }

  /** An edit between two runs of edits. */
  lemma ApplyAround(src: string, a: seq<Edit>, e: Edit, b: seq<Edit>, src1: string, src2: string)
    requires ApplySorted(src, |src|, a) == Ok(src1) && 0 <= e.start <= e.end <= LastStart(|src|, a) && e.end <= |src1|
    requires src2 == src1[..e.start] + e.replacement + src1[e.end..]
    ensures ApplySorted(src, |src|, a + [e] + b) == ApplySorted(src2, e.start, b)
  {
    ApplyConcat(src, |src|, a, [e] + b);
    assert a + [e] + b == a + ([e] + b);
    assert ([e] + b)[1..] == b;
  }

  // ----- edits of a part of the text -----

  /** Every edit ends at or before the start of the one before it. */
  predicate Chain(previous: int, es: seq<Edit>)
    decreases |es|
  {
    es == [] || (0 <= es[0].start <= es[0].end <= previous && Chain(es[0].start, es[1..]))
  }

  lemma {:induction false} ChainConcat(previous: nat, a: seq<Edit>, b: seq<Edit>)
    requires Chain(previous, a) && Chain(LastStart(previous, a), b)
    ensures Chain(previous, a + b) && 0 <= LastStart(previous, a) <= previous
    decreases |a|
  {
    if a == [] {
      assert a + b == b;
    } else {
      assert (a + b)[1..] == a[1..] + b;
      ChainConcat(a[0].start, a[1..], b);
    }
  }

  lemma LastStartConcat(previous: nat, a: seq<Edit>, b: seq<Edit>)
    ensures LastStart(previous, a + b) == if b == [] then LastStart(previous, a) else LastStart(0, b)
  {
  }

  /** Such edits are applied, and leave the text before the last one alone. */
  lemma {:induction false} ChainApplies(src: string, previous: nat, es: seq<Edit>)
    requires previous <= |src| && Chain(previous, es)
    ensures ApplySorted(src, previous, es).Ok?
    ensures var n, r := LastStart(previous, es), ApplySorted(src, previous, es).value; 0 <= n <= previous && n <= |r| && r[..n] == src[..n]
    decreases |es|
  {
    if es != [] {
      var e := es[0];
      var src1 := src[..e.start] + e.replacement + src[e.end..];
      ChainApplies(src1, e.start, es[1..]);
      assert src1[..e.start] == src[..e.start];
      var n := LastStart(e.start, es[1..]);
      assert src1[..n] == src1[..e.start][..n] == src[..n];
    }
  }

  /** They leave the text behind the first one alone. */
  lemma {:induction false} ChainAppend(x: string, y: string, previous: nat, es: seq<Edit>)
    requires previous <= |x| && Chain(previous, es)
    ensures ApplySorted(x, previous, es).Ok? && ApplySorted(x + y, previous, es) == Ok(ApplySorted(x, previous, es).value + y)
    decreases |es|
  {
    if es != [] {
      var e := es[0];
      var x1 := x[..e.start] + e.replacement + x[e.end..];
      assert (x + y)[..e.start] + e.replacement + (x + y)[e.end..] == x1 + y;
      ChainAppend(x1, y, e.start, es[1..]);
    }
  }

  lemma AroundText(src: string, a: seq<Edit>, e: Edit, b: seq<Edit>, src1: string, x: string)
    requires ApplySorted(src, |src|, a) == Ok(src1) && 0 <= e.start <= e.end <= LastStart(|src|, a) <= |src1|
    requires e.start <= |src| && src1[..e.start] == src[..e.start] && Chain(e.start, b) && ApplySorted(src[..e.start], e.start, b) == Ok(x)
    ensures ApplySorted(src, |src|, a + [e] + b) == Ok(x + e.replacement + src1[e.end..])
  {
    hide ApplySorted, Chain, LastStart;
    var head, y := src[..e.start], e.replacement + src1[e.end..];
    assert src1[..e.start] + e.replacement + src1[e.end..] == head + y;
    ApplyAround(src, a, e, b, src1, head + y);
    ChainAppend(head, y, e.start, b);
    assert x + y == x + e.replacement + src1[e.end..];
  }

  /** An edit in a chain: what the edits behind it make of the rest, and those before
      it of the text before it, does not depend on what it writes. */
  lemma AroundOne(src: string, a: seq<Edit>, e: Edit, b: seq<Edit>) returns (x: string, y: string)
    requires Chain(|src|, a) && InBounds(src, e) && e.end <= LastStart(|src|, a) && Chain(e.start, b)
    ensures forall w :: ApplySorted(src, |src|, a + [Edit(e.start, e.end, w)] + b) == Ok(x + w + y)
    ensures ApplySorted(src, e.start, b) == Ok(x + src[e.start..])
  {
    hide ApplySorted, Chain, LastStart;
    ChainApplies(src, |src|, a);
    var src1, n := ApplySorted(src, |src|, a).value, LastStart(|src|, a);
    var head := src[..e.start];
    assert src1[..e.start] == src1[..n][..e.start] == src[..n][..e.start] == head;
    ChainAppend(head, src[e.start..], e.start, b);
    assert head + src[e.start..] == src;
    x, y := ApplySorted(head, e.start, b).value, src1[e.end..];
    forall w
      ensures ApplySorted(src, |src|, a + [Edit(e.start, e.end, w)] + b) == Ok(x + w + y)
    {
      AroundText(src, a, Edit(e.start, e.end, w), b, src1, x);
    }
  }

  /** applyPHPEdits, the loop over the sorted edits. */
  method Apply(source: string, edits: seq<Edit>) returns (r: Result<string, PhpError>)
    ensures r == ApplyEdits(source, edits)
  {
    var sorted := Sort(edits);
    var src := source;
    var previous: nat := |source|;
    var k := 0;
    assert sorted[0..] == sorted;
    while k < |sorted|
      invariant k <= |sorted| && previous <= |src|
      invariant ApplySorted(source, |source|, sorted) == ApplySorted(src, previous, sorted[k..])
    {
      var edit := sorted[k];
      assert sorted[k..][1..] == sorted[k + 1..];
      if edit.start < 0 || edit.end < edit.start || edit.end > previous { return Err(OverlappingEdits); }
      src := src[..edit.start] + edit.replacement + src[edit.end..];
      previous := edit.start;
      k := k + 1;
    }
    assert sorted[k..] == [];
    return Ok(src);
  }
}
