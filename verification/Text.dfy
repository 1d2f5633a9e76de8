/** Text helpers shared by the models: the result type that stands for Go's
    `(value, error)` pairs and the functions of Go's `strings` package that the
    modelled code calls.  Text is a sequence of Unicode scalar values. */
module Text {

  datatype Result<+T, +E> = Ok(value: T) | Err(error: E) {
    predicate IsFailure() { Err? }

    function PropagateFailure<U>(): Result<U, E>
      requires Err?
    {
      Err(error)
    }

    function Extract(): T
      requires Ok?
    {
      value
    }
  }

  datatype Option<+T> = None | Some(value: T)

  /** unicode.IsSpace */
  predicate IsSpace(c: char) {
    || '\t' <= c <= '\r'
    || c == ' ' || c == '\U{0085}' || c == '\U{00A0}' || c == '\U{1680}'
    || '\U{2000}' <= c <= '\U{200A}'
    || c == '\U{2028}' || c == '\U{2029}' || c == '\U{202F}' || c == '\U{205F}' || c == '\U{3000}'
  }

  const SPACES := "\t\n\U{000B}\U{000C}\r \U{0085}\U{00A0}\U{1680}\U{2000}\U{2001}\U{2002}\U{2003}\U{2004}\U{2005}\U{2006}\U{2007}\U{2008}\U{2009}\U{200A}\U{2028}\U{2029}\U{202F}\U{205F}\U{3000}"

  /** The characters with the Unicode property White_Space. */
  lemma SpacesListed(c: char)
    ensures IsSpace(c) <==> c in SPACES
  {
    assert |SPACES| == 25;
  }

  /** strings.TrimSpace(s) == "" */
  predicate AllSpace(s: string) {
    forall i :: 0 <= i < |s| ==> IsSpace(s[i])
  }

  /** strings.Index: the offset of the first occurrence, or -1. */
  function Index(s: string, sub: string): (n: int)
    ensures -1 <= n
    ensures n >= 0 ==> n + |sub| <= |s| && s[n..n + |sub|] == sub
  {
    if sub <= s then 0
    else if s == "" then -1
    else
      var n := Index(s[1..], sub);
      if n < 0 then -1 else n + 1
  }

  /** x and y stand next to each other in t. */
  predicate Has(t: string, x: char, y: char) { exists i :: 0 <= i < |t| - 1 && t[i] == x && t[i + 1] == y }

  /** Where x and y first stand next to each other. */
  lemma {:induction false} FirstPair(t: string, x: char, y: char, r: string)
    requires x != y
    ensures Index(t + r, [x, y]) == |t| <==> [x, y] <= r && !Has(t, x, y)
  {
    hide Has;
    var s := t + r;
    if t == "" {
      assert s == r;
      HasNot("", x, y);
    } else {
      assert s[1..] == t[1..] + r;
      FirstPair(t[1..], x, y, r);
      HasHead(t, x, y);
      HeadPair(t, r, x, y);
    }
  }

  lemma HeadPair(t: string, r: string, x: char, y: char)
    requires t != ""
    ensures [x, y] <= t + r <==> t[0] == x && (if |t| > 1 then t[1] == y else [y] <= r)
  {
    var s := t + r;
    if [x, y] <= s { assert s[0] == t[0] && s[1] == if |t| > 1 then t[1] else r[0]; }
    if t[0] == x && (if |t| > 1 then t[1] == y else [y] <= r) { assert s[0] == x && s[1] == y; }
  }

  lemma HasNot(t: string, x: char, y: char)
    requires |t| < 2
    ensures !Has(t, x, y)
  {
  }

  lemma {:induction false} NoPair(t: string, x: char, y: char)
    ensures Index(t, [x, y]) < 0 <==> !Has(t, x, y)
  {
    hide Has;
    if t == "" {
      HasNot(t, x, y);
    } else {
      NoPair(t[1..], x, y);
      HasHead(t, x, y);
      HeadPair(t, "", x, y);
      assert t + "" == t;
    }
  }

  lemma HasHead(t: string, x: char, y: char)
    requires t != ""
    ensures Has(t, x, y) <==> (|t| > 1 && t[0] == x && t[1] == y) || Has(t[1..], x, y)
  {
    if i :| 0 <= i < |t| - 1 && t[i] == x && t[i + 1] == y {
      if i > 0 { assert t[1..][i - 1] == x && t[1..][i] == y; }
    }
    if i :| 0 <= i < |t[1..]| - 1 && t[1..][i] == x && t[1..][i + 1] == y {
      assert t[i + 1] == x && t[i + 2] == y;
    }
  }

  /** strings.LastIndex(s, "\n") + 1 */
  function LineStart(s: string): (n: nat)
    ensures n <= |s|
    ensures n > 0 ==> s[n - 1] == '\n'
    ensures forall i :: n <= i < |s| ==> s[i] != '\n'
  {
    if s == "" then 0
    else if s[|s| - 1] == '\n' then |s|
    else LineStart(s[..|s| - 1])
  }

  /** Something else than spaces stands between the last line break and pos. */
  predicate MidLine(s: string, pos: nat)
    requires pos <= |s|
  {
    exists i :: 0 <= i < pos && !IsSpace(s[i]) && '\n' !in s[i..pos]
  }

  /** The line of pos starts at n. */
  predicate StartsLine(s: string, n: nat, pos: nat) {
    n <= pos <= |s| && (n == 0 || s[n - 1] == '\n') && forall i :: n <= i < pos ==> s[i] != '\n'
  }

  lemma LineFound(s: string, pos: nat)
    requires pos <= |s|
    ensures var n := LineStart(s[..pos]); StartsLine(s, n, pos) && (AllSpace(s[n..pos]) || MidLine(s, pos))
  {
    hide IsSpace;
    var n := LineStart(s[..pos]);
    assert forall i :: n <= i < pos ==> s[i] == s[..pos][i];
    if !AllSpace(s[n..pos]) {
      var k :| 0 <= k < |s[n..pos]| && !IsSpace(s[n..pos][k]);
      assert !IsSpace(s[n + k]) && '\n' !in s[n + k..pos];
    }
  }

  /** strings.Join */
  function Join(parts: seq<string>, sep: string): string {
    if parts == [] then ""
    else if |parts| == 1 then parts[0]
    else parts[0] + sep + Join(parts[1..], sep)
  }

  /** strings.ToLower on the letters that a comparison with an ASCII word can
      meet: U+0130 and U+212A are the two non-ASCII letters that lower to one. */
  function LowerChar(c: char): char {
    if 'A' <= c <= 'Z' then (c as int + 32) as char
    else if c == '\U{0130}' then 'i'
    else if c == '\U{212A}' then 'k'
    else c
  }

  /** Capitals lower to the letter in the same place of the alphabet. */
  lemma LowersListed(c: char)
    ensures 'A' <= c <= 'Z' ==> LowerChar(c) == "abcdefghijklmnopqrstuvwxyz"[c as int - 'A' as int]
    ensures !('A' <= c <= 'Z') && c != '\U{0130}' && c != '\U{212A}' ==> LowerChar(c) == c
  {
  }

  function Lower(s: string): (r: string)
    ensures |r| == |s|
    ensures forall i :: 0 <= i < |s| ==> r[i] == LowerChar(s[i])
  {
    seq(|s|, i requires 0 <= i < |s| => LowerChar(s[i]))
  }

  /** strings.EqualFold against a word of ASCII letters other than k and s, which
      have no non-ASCII case variants. */
  predicate FoldsTo(s: string, word: string) {
    |s| == |word| && forall i :: 0 <= i < |s| ==> s[i] == word[i] || ('A' <= s[i] <= 'Z' && LowerChar(s[i]) == word[i])
  }

  /** t is the word in any case, given in both. */
  predicate AnyCase(t: string, lower: string, upper: string) {
    |t| == |lower| == |upper| && forall i :: 0 <= i < |t| ==> t[i] == lower[i] || t[i] == upper[i]
  }

  lemma FoldsSpelled(t: string, lower: string, upper: string)
    requires |lower| == |upper| && forall i :: 0 <= i < |lower| ==> 'a' <= lower[i] <= 'z' && upper[i] as int == lower[i] as int - 32
    ensures FoldsTo(t, lower) <==> AnyCase(t, lower, upper)
  {
  }

  /** strings.TrimLeftFunc(s, unicode.IsSpace) */
  function TrimLeft(s: string): string {
    if s != "" && IsSpace(s[0]) then TrimLeft(s[1..]) else s
  }

  function TrimRight(s: string): string {
    if s != "" && IsSpace(s[|s| - 1]) then TrimRight(s[..|s| - 1]) else s
  }

  lemma {:induction false} TrimLeftSnoc(s: string, c: char)
    ensures TrimLeft(s + [c]) == if TrimLeft(s) != "" then TrimLeft(s) + [c] else if IsSpace(c) then "" else [c]
  {
    hide IsSpace;
    if s == "" {
      assert s + [c] == [c] && [c][1..] == "";
    } else {
      assert (s + [c])[1..] == s[1..] + [c] && (s + [c])[0] == s[0];
      if IsSpace(s[0]) { TrimLeftSnoc(s[1..], c); }
    }
  }

  /** strings.TrimSpace */
  function TrimSpace(s: string): string { TrimRight(TrimLeft(s)) }

  /** Trimming takes away the blanks around a text, and nothing else. */
  lemma {:induction false} TrimmedIs(before: string, s: string, after: string)
    requires AllSpace(before) && AllSpace(after) && (s == "" || (!IsSpace(s[0]) && !IsSpace(s[|s| - 1])))
    ensures TrimSpace(before + s + after) == s
    decreases |before| + |after|
  {
    hide IsSpace;
    var t := before + s + after;
    if before != "" {
      assert t[1..] == before[1..] + s + after && t[0] == before[0];
      TrimmedIs(before[1..], s, after);
    } else if s == "" {
      LeftAll(after);
      assert t == after;
    } else {
      assert TrimLeft(t) == t;
      RightAll(s, after);
      assert t == s + after;
    }
  }

  lemma {:induction false} LeftAll(s: string)
    requires AllSpace(s)
    ensures TrimLeft(s) == ""
  {
    if s != "" { LeftAll(s[1..]); }
  }

  lemma {:induction false} RightAll(s: string, after: string)
    requires AllSpace(after) && s != "" && !IsSpace(s[|s| - 1])
    ensures TrimRight(s + after) == s
    decreases |after|
  {
    if after == "" {
      assert s + after == s;
    } else {
      assert (s + after)[..|s + after| - 1] == s + after[..|after| - 1];
      RightAll(s, after[..|after| - 1]);
    }
  }

  lemma {:induction false} LeftSkips(before: string, s: string)
    requires AllSpace(before)
    ensures TrimLeft(before + s) == TrimLeft(s)
  {
    hide IsSpace;
    if before == "" {
      assert before + s == s;
    } else {
      assert (before + s)[1..] == before[1..] + s && (before + s)[0] == before[0];
      LeftSkips(before[1..], s);
    }
  }

  /** Trimming on the right stops behind the last character that is no space. */
  lemma {:induction false} RightStops(a: string, b: string)
    requires a != "" && !IsSpace(a[|a| - 1])
    ensures TrimRight(a + b) == a + TrimRight(b)
    decreases |b|
  {
    hide IsSpace;
    if b == "" {
      assert a + b == a;
    } else {
      var c, most := b[|b| - 1], b[..|b| - 1];
      assert (a + b)[..|a + b| - 1] == a + most && (a + b)[|a + b| - 1] == c;
      if IsSpace(c) { RightStops(a, most); }
    }
  }

  /** strings.Split on a one-character separator. */
  function SplitOn(s: string, c: char): (r: seq<string>)
    ensures r != []
  {
    if s == "" then [""]
    else
      var rest := SplitOn(s[1..], c);
      if s[0] == c then [""] + rest else [[s[0]] + rest[0]] + rest[1..]
  }

  /** Splitting and joining are inverse. */
  lemma {:induction false} SplitBack(s: string, c: char)
    ensures Join(SplitOn(s, c), [c]) == s && forall i :: 0 <= i < |SplitOn(s, c)| ==> c !in SplitOn(s, c)[i]
  {
    if s != "" {
      SplitBack(s[1..], c);
      var rest := SplitOn(s[1..], c);
      if s[0] == c {
        assert ([""] + rest)[1..] == rest;
      } else {
        var parts := [[s[0]] + rest[0]] + rest[1..];
        assert parts[1..] == rest[1..];
      }
      assert s == [s[0]] + s[1..];
    }
  }

  lemma {:induction false} JoinBack(parts: seq<string>, c: char)
    requires parts != [] && forall i :: 0 <= i < |parts| ==> c !in parts[i]
    ensures SplitOn(Join(parts, [c]), c) == parts
    decreases |parts|
  {
    if |parts| == 1 {
      SplitHead(parts[0], c, []);
    } else {
      JoinBack(parts[1..], c);
      SplitHead(parts[0], c, parts[1..]);
    }
  }

  lemma {:induction false} SplitHead(head: string, c: char, rest: seq<string>)
    requires c !in head && (rest != [] ==> SplitOn(Join(rest, [c]), c) == rest)
    ensures SplitOn(Join([head] + rest, [c]), c) == [head] + rest
    decreases |head|
  {
    assert ([head] + rest)[1..] == rest;
    var t := Join([head] + rest, [c]);
    if head == "" {
      if rest != [] { assert t == [c] + Join(rest, [c]) && t[1..] == Join(rest, [c]); }
    } else {
      SplitHead(head[1..], c, rest);
      assert ([head[1..]] + rest)[1..] == rest;
      assert t[1..] == Join([head[1..]] + rest, [c]);
      assert [t[0]] + head[1..] == head;
    }
  }
}
