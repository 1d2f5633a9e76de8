/** The templates of the write-file action: every placeholder is replaced once, and
    what it is replaced by is not read again. */
module Templates {
  import opened Text

  predicate NameChar(c: char) {
    'A' <= c <= 'Z' || 'a' <= c <= 'z' || '0' <= c <= '9' || c == '_' || c == '.' || c == '-'
  }

  function NameLength(s: string): (n: nat)
    ensures n <= |s|
  {
    if s == "" || !NameChar(s[0]) then 0 else 1 + NameLength(s[1..])
  }

  function Placeholder(name: string): string { "{{" + name + "}}" }

  /** The name of the placeholder that s begins with. */
  function Head(s: string): (name: Option<string>)
    ensures name.Some? ==> Placeholder(name.value) <= s
  {
    if !("{{" <= s) then None
    else
      var n := NameLength(s[2..]);
      if n > 0 && "}}" <= s[2 + n..] then
        assert s == "{{" + s[2..2 + n] + "}}" + s[4 + n..];
        Some(s[2..2 + n])
      else None
  }

  /** Letters, digits, underscores, dots and dashes. */
  predicate IsName(name: string) {
    name != "" && forall i :: 0 <= i < |name| ==>
      || 'A' <= name[i] <= 'Z' || 'a' <= name[i] <= 'z' || '0' <= name[i] <= '9' || name[i] == '_' || name[i] == '.' || name[i] == '-'
  }

  lemma {:induction false} NameEnds(name: string, rest: string)
    requires (forall i :: 0 <= i < |name| ==> NameChar(name[i])) && (rest == "" || !NameChar(rest[0]))
    ensures NameLength(name + rest) == |name|
  {
    hide NameChar;
    if name == "" {
      assert name + rest == rest;
    } else {
      assert (name + rest)[1..] == name[1..] + rest;
      NameEnds(name[1..], rest);
    }
  }

  lemma {:induction false} NamePrefix(s: string)
    ensures forall i :: 0 <= i < NameLength(s) ==> NameChar(s[i])
  {
    hide NameChar;
    if s != "" && NameChar(s[0]) {
      NamePrefix(s[1..]);
      assert forall i :: 0 < i < |s| ==> s[i] == s[1..][i - 1];
    }
  }

  /** A placeholder is a name in double braces. */
  lemma HeadIs(s: string, name: string)
    ensures Head(s) == Some(name) <==> IsName(name) && "{{" + name + "}}" <= s
  {
    if Head(s) == Some(name) {
      NamePrefix(s[2..]);
      assert forall i :: 0 <= i < |name| ==> name[i] == s[2..][i];
    }
    if IsName(name) && "{{" + name + "}}" <= s {
      assert s == "{{" + name + "}}" + s[|name| + 4..];
      HeadOf(name, s[|name| + 4..]);
    }
  }

  lemma HeadOf(name: string, rest: string)
    requires IsName(name)
    ensures Head("{{" + name + "}}" + rest) == Some(name)
  {
    hide NameLength;
    var s, t := "{{" + name + "}}" + rest, "}}" + rest;
    assert s[2..] == name + t && t[0] == '}';
    NameEnds(name, t);
    assert s[2..2 + |name|] == name && s[2 + |name|..] == t;
  }

  /** What a placeholder stands for; nothing when it is not bound. */
  function Bound(bindings: map<string, string>, name: string): string {
    if name in bindings then bindings[name] else ""
  }

  /** frameworkPlaceholder.ReplaceAllStringFunc: the matches from left to right. */
  function Substitute(s: string, bindings: map<string, string>): string
    decreases |s|
  {
    if s == "" then ""
    else
      match Head(s)
      case Some(name) => Bound(bindings, name) + Substitute(s[|name| + 4..], bindings)
      case None => [s[0]] + Substitute(s[1..], bindings)
  }

  // ----- what a template is made of -----

  datatype Chunk = Plain(text: string) | Slot(name: string)

  function ChunkText(c: Chunk): string {
    match c case Plain(t) => t case Slot(name) => Placeholder(name)
  }

  function Unchunked(cs: seq<Chunk>): string {
    if cs == [] then "" else ChunkText(cs[0]) + Unchunked(cs[1..])
  }

  function Filled(cs: seq<Chunk>, bindings: map<string, string>): string {
    if cs == [] then ""
    else (match cs[0] case Plain(t) => t case Slot(name) => Bound(bindings, name)) + Filled(cs[1..], bindings)
  }

  /** The text is cut where its placeholders are: the slots are placeholders, and none
      begins inside the plain text. */
  ghost predicate Cut(cs: seq<Chunk>) {
    cs == [] ||
    (var s := Unchunked(cs);
      && (match cs[0]
          case Plain(t) => forall i :: 0 <= i < |t| ==> Head(s[i..]) == None
          case Slot(name) => Head(s) == Some(name))
      && Cut(cs[1..]))
  }

  lemma {:induction false} PlainKept(t: string, rest: string, bindings: map<string, string>)
    requires forall i :: 0 <= i < |t| ==> Head((t + rest)[i..]) == None
    ensures Substitute(t + rest, bindings) == t + Substitute(rest, bindings)
  {
    hide Head;
    if t == "" {
      assert t + rest == rest;
    } else {
      var s := t + rest;
      assert s[0..] == s && s[1..] == t[1..] + rest;
      assert forall i :: 0 <= i < |t| - 1 ==> (t[1..] + rest)[i..] == s[i + 1..];
      PlainKept(t[1..], rest, bindings);
    }
  }

  /** However a template is cut into plain text and placeholders, the plain text stays
      and every placeholder becomes its value, whatever that value looks like. */
  lemma {:induction false} SubstituteFills(cs: seq<Chunk>, bindings: map<string, string>)
    requires Cut(cs)
    ensures Substitute(Unchunked(cs), bindings) == Filled(cs, bindings)
    decreases |cs|
  {
    hide Head;
    if cs != [] {
      var s, rest := Unchunked(cs), Unchunked(cs[1..]);
      SubstituteFills(cs[1..], bindings);
      match cs[0]
      case Plain(t) => PlainKept(t, rest, bindings);
      case Slot(name) =>
        assert s == Placeholder(name) + rest;
        assert s[|name| + 4..] == rest;
    }
  }

  /** Every template can be cut. */
  function Chunks(s: string): (cs: seq<Chunk>)
    ensures Unchunked(cs) == s && Cut(cs)
    decreases |s|
  {
    if s == "" then []
    else
      match Head(s)
      case Some(name) =>
        assert s == Placeholder(name) + s[|name| + 4..];
        var rest := Chunks(s[|name| + 4..]);
        assert ([Slot(name)] + rest)[1..] == rest;
        [Slot(name)] + rest
      case None =>
        var rest := Chunks(s[1..]);
        assert ([Plain([s[0]])] + rest)[1..] == rest && s == [s[0]] + s[1..] && s[0..] == s;
        [Plain([s[0]])] + rest
  }
}
