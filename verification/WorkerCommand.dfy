/** SplitWorkerCommand and the quoting that it undoes. */
module WorkerCommand {
  import opened Text
  import opened PhpLiterals

  datatype CommandError = UnbalancedQuote | EmptyCommand

  /** The variables of the loop. */
  datatype State = State(args: seq<string>, current: string, quote: Option<char>, inArg: bool)

  predicate IsSeparator(r: char) { r == ' ' || r == '\t' || r == '\n' || r == '\r' }

  function Step(s: State, r: char): State {
    if s.quote.Some? then
      if s.quote.value == r then s.(quote := None) else s.(current := s.current + [r])
    else if r == '\'' || r == '"' then s.(quote := Some(r), inArg := true)
    else if IsSeparator(r) then
      if s.inArg then State(s.args + [s.current], "", None, false) else s
    else s.(current := s.current + [r], inArg := true)
  }

  function Run(s: State, command: string): State
    decreases |command|
  {
    if command == "" then s else Run(Step(s, command[0]), command[1..])
  }

  function Outcome(s: State): Result<seq<string>, CommandError> {
    if s.quote.Some? then Err(UnbalancedQuote)
    else
      var args := if s.inArg then s.args + [s.current] else s.args;
      if args == [] then Err(EmptyCommand) else Ok(args)
  }

  const START := State([], "", None, false)

  /** SplitWorkerCommand */
  method SplitWorkerCommand(command: string) returns (r: Result<seq<string>, CommandError>)
    ensures r == Outcome(Run(START, command))
  {
    var args: seq<string> := [];
    var current := "";
    var quote: Option<char> := None;
    var inArg := false;
    var i := 0;
    assert command[0..] == command;
    while i < |command|
      invariant i <= |command|
      invariant Run(START, command) == Run(State(args, current, quote, inArg), command[i..])
    {
      var r := command[i];
      assert command[i..][1..] == command[i + 1..];
      if quote.Some? {
        if r == quote.value { quote := None; } else { current := current + [r]; }
      } else if r == '\'' || r == '"' {
        quote := Some(r);
        inArg := true;
      } else if IsSeparator(r) {
        if inArg {
          args := args + [current];
          current := "";
          inArg := false;
        }
      } else {
        current := current + [r];
        inArg := true;
      }
      i := i + 1;
    }
    assert command[i..] == "";
    if quote.Some? { return Err(UnbalancedQuote); }
    if inArg { args := args + [current]; }
    if |args| == 0 { return Err(EmptyCommand); }
    return Ok(args);
  }

  /** shellLiteral */
  function ShellLiteral(value: string): string {
    "'" + ReplaceAll(value, '\'', "'\"'\"'") + "'"
  }

  /** Quoted arguments joined by spaces. */
  function CommandLine(args: seq<string>): string {
    if args == [] then ""
    else if |args| == 1 then ShellLiteral(args[0])
    else CommandLine(args[..|args| - 1]) + " " + ShellLiteral(args[|args| - 1])
  }

  lemma {:induction false} RunConcat(s: State, a: string, b: string)
    ensures Run(s, a + b) == Run(Run(s, a), b)
    decreases |a|
  {
    if a == "" {
      assert a + b == b;
    } else {
      assert (a + b)[1..] == a[1..] + b;
      RunConcat(Step(s, a[0]), a[1..], b);
    }
  }

  lemma RunOne(s: State, r: char)
    ensures Run(s, [r]) == Step(s, r)
  {
  }

  /** The five characters that stand for a quote add one quote. */
  lemma RunQuote(args: seq<string>, current: string)
    ensures Run(State(args, current, Some('\''), true), "'\"'\"'") == State(args, current + "'", Some('\''), true)
  {
  }

  /** Inside the quotes the value is read back. */
  lemma {:induction false} RunInner(args: seq<string>, current: string, value: string)
    ensures Run(State(args, current, Some('\''), true), ReplaceAll(value, '\'', "'\"'\"'")) == State(args, current + value, Some('\''), true)
    decreases |value|
  {
    hide Step;
    var s := State(args, current, Some('\''), true);
    if value == "" {
      assert current + value == current;
    } else {
      var head := if value[0] == '\'' then "'\"'\"'" else [value[0]];
      var rest := ReplaceAll(value[1..], '\'', "'\"'\"'");
      RunConcat(s, head, rest);
      if value[0] == '\'' { RunQuote(args, current); } else { RunPlain(args, current, value[0]); }
      RunInner(args, current + [value[0]], value[1..]);
      assert current + [value[0]] + value[1..] == current + value;
    }
  }

  lemma RunPlain(args: seq<string>, current: string, c: char)
    requires c != '\''
    ensures Run(State(args, current, Some('\''), true), [c]) == State(args, current + [c], Some('\''), true)
  {
  }

  lemma RunLiteral(args: seq<string>, value: string)
    ensures Run(State(args, "", None, false), ShellLiteral(value)) == State(args, value, None, true)
  {
    hide ReplaceAll;
    var s, inner := State(args, "", None, false), ReplaceAll(value, '\'', "'\"'\"'");
    assert ShellLiteral(value) == ['\''] + (inner + ['\'']);
    RunConcat(s, ['\''], inner + ['\'']);
    RunOne(s, '\'');
    RunConcat(State(args, "", Some('\''), true), inner, ['\'']);
    RunInner(args, "", value);
    RunOne(State(args, "" + value, Some('\''), true), '\'');
    assert "" + value == value;
  }

  lemma {:induction false} RunLine(args: seq<string>)
    requires args != []
    ensures Run(START, CommandLine(args)) == State(args[..|args| - 1], args[|args| - 1], None, true)
    decreases |args|
  {
    hide ShellLiteral;
    var n := |args| - 1;
    if n == 0 {
      RunLiteral([], args[0]);
      assert args[..0] == [];
    } else {
      var before, last := args[..n], args[n];
      RunLine(before);
      RunConcat(START, CommandLine(before) + " ", ShellLiteral(last));
      RunConcat(START, CommandLine(before), " ");
      RunOne(State(before[..n - 1], before[n - 1], None, true), ' ');
      assert before[..n - 1] + [before[n - 1]] == before;
      RunLiteral(before, last);
    }
  }

  /** Splitting a line of quoted arguments returns the arguments, whatever they are. */
  lemma SplitQuoted(args: seq<string>)
    requires args != []
    ensures Outcome(Run(START, CommandLine(args))) == Ok(args)
  {
    RunLine(args);
    assert args[..|args| - 1] + [args[|args| - 1]] == args;
  }

  // ----- what a command line is made of -----

  /** A command line is cut into blanks, plain characters and quoted texts. */
  datatype Bit = Blank(c: char) | Plain(c: char) | Quoted(quote: char, text: string)

  predicate ValidBit(b: Bit) {
    match b
    case Blank(c) => c == ' ' || c == '\t' || c == '\n' || c == '\r'
    case Plain(c) => c != ' ' && c != '\t' && c != '\n' && c != '\r' && c != '\'' && c != '"'
    case Quoted(q, text) => (q == '\'' || q == '"') && q !in text
  }

  predicate ValidBits(bits: seq<Bit>) { forall i :: 0 <= i < |bits| ==> ValidBit(bits[i]) }

  function BitText(b: Bit): string {
    match b case Blank(c) => [c] case Plain(c) => [c] case Quoted(q, text) => [q] + text + [q]
  }

  function BitsText(bits: seq<Bit>): string { if bits == [] then "" else BitText(bits[0]) + BitsText(bits[1..]) }

  /** What a bit contributes to its word. */
  function BitValue(b: Bit): string
    requires !b.Blank?
  {
    match b case Plain(c) => [c] case Quoted(_, text) => text
  }

  /** The words: bits that no blank parts are one word. */
  function Words(bits: seq<Bit>): seq<string> {
    if bits == [] then []
    else if bits[0].Blank? then Words(bits[1..])
    else
      var rest := Words(bits[1..]);
      if |bits| > 1 && !bits[1].Blank? && rest != [] then [BitValue(bits[0]) + rest[0]] + rest[1..]
      else [BitValue(bits[0])] + rest
  }

  /** A quote that is opened at the end and not closed. */
  predicate ValidOpen(open: string) { open == "" || ((open[0] == '\'' || open[0] == '"') && open[0] !in open[1..]) }

  lemma {:induction false} RunText(args: seq<string>, current: string, q: char, text: string)
    requires q !in text
    ensures Run(State(args, current, Some(q), true), text) == State(args, current + text, Some(q), true)
    decreases |text|
  {
    if text == "" {
      assert current + text == current;
    } else {
      RunText(args, current + [text[0]], q, text[1..]);
      assert current + [text[0]] + text[1..] == current + text;
    }
  }

  /** One bit in a word, or between words. */
  lemma RunBit(s: State, b: Bit)
    requires s.quote.None? && ValidBit(b)
    ensures Run(s, BitText(b)) ==
      if b.Blank? then if s.inArg then State(s.args + [s.current], "", None, false) else s
      else State(s.args, s.current + BitValue(b), None, true)
  {
    match b
    case Blank(c) => RunOne(s, c);
    case Plain(c) => RunOne(s, c);
    case Quoted(q, text) =>
      var t := State(s.args, s.current, Some(q), true);
      assert BitText(b) == [q] + (text + [q]);
      RunConcat(s, [q], text + [q]);
      RunOne(s, q);
      RunConcat(t, text, [q]);
      RunText(s.args, s.current, q, text);
      RunOne(State(s.args, s.current + text, Some(q), true), q);
  }

  /** The words that are complete when s is. */
  function Complete(s: State): seq<string> { if s.inArg then s.args + [s.current] else s.args }

  /** The words when bits follow on s: a word in progress goes on. */
  function Joins(s: State, bits: seq<Bit>): seq<string> {
    if s.inArg && bits != [] && !bits[0].Blank? then
      WordsHead(bits);
      s.args + ([s.current + Words(bits)[0]] + Words(bits)[1..])
    else Complete(s) + Words(bits)
  }

  /** The state after one bit. */
  function AfterBit(s: State, b: Bit): State {
    if b.Blank? then if s.inArg then State(s.args + [s.current], "", None, false) else s
    else State(s.args, s.current + BitValue(b), None, true)
  }

  lemma WordGoesOn(s: State, b: Bit, rest: seq<Bit>)
    requires (!s.inArg ==> s.current == "") && !b.Blank? && rest != [] && !rest[0].Blank?
    ensures Joins(s, [b] + rest) == Joins(AfterBit(s, b), rest)
  {
    WordsHead(rest);
    var bits, v, w := [b] + rest, BitValue(b), Words(rest);
    assert bits[1..] == rest;
    assert Words(bits) == [v + w[0]] + w[1..];
    assert s.current + v + w[0] == s.current + (v + w[0]);
    if !s.inArg { assert s.current + (v + w[0]) == v + w[0]; }
  }

  lemma WordEnds(s: State, b: Bit, rest: seq<Bit>)
    requires (!s.inArg ==> s.current == "") && (b.Blank? || rest == [] || rest[0].Blank?)
    ensures Joins(s, [b] + rest) == Joins(AfterBit(s, b), rest)
  {
    var bits := [b] + rest;
    assert bits[1..] == rest;
    if b.Blank? {
      assert Complete(AfterBit(s, b)) == Complete(s);
    } else {
      var v, w := BitValue(b), Words(rest);
      assert Words(bits) == [v] + w;
      assert s.args + [s.current + v] + w == s.args + ([s.current + v] + w);
      if !s.inArg { assert s.current + v == v; }
    }
  }

  lemma {:induction false} RunBits(s: State, bits: seq<Bit>)
    requires s.quote.None? && (!s.inArg ==> s.current == "") && ValidBits(bits)
    ensures Run(s, BitsText(bits)).quote.None? && Complete(Run(s, BitsText(bits))) == Joins(s, bits)
    decreases |bits|
  {
    hide Step, ValidBit, Joins, Words, Complete;
    if bits == [] {
      NoBits(s);
    } else {
      var b, rest := bits[0], bits[1..];
      RunConcat(s, BitText(b), BitsText(rest));
      RunBit(s, b);
      RunBits(AfterBit(s, b), rest);
      assert bits == [b] + rest;
      if b.Blank? || rest == [] || rest[0].Blank? { WordEnds(s, b, rest); } else { WordGoesOn(s, b, rest); }
    }
  }

  lemma NoBits(s: State)
    ensures Joins(s, []) == Complete(s) && Run(s, "") == s
  {
  }

  lemma WordsHead(bits: seq<Bit>)
    requires bits != [] && !bits[0].Blank?
    ensures Words(bits) != []
  {
  }

  /** However a command line is cut so, splitting returns its words; an open quote and
      a line without words are refused. */
  lemma SplitsWords(bits: seq<Bit>, open: string)
    requires ValidBits(bits) && ValidOpen(open)
    ensures Outcome(Run(START, BitsText(bits) + open)) ==
      if open != "" then Err(UnbalancedQuote) else if Words(bits) == [] then Err(EmptyCommand) else Ok(Words(bits))
  {
    hide ValidBits, Words, BitsText;
    RunConcat(START, BitsText(bits), open);
    RunBits(START, bits);
    var s := Run(START, BitsText(bits));
    if open == "" {
      assert [] + Words(bits) == Words(bits);
    } else {
      RunOpen(s, open);
    }
  }

  lemma RunOpen(s: State, open: string)
    requires s.quote.None? && ValidOpen(open) && open != ""
    ensures Run(s, open).quote.Some?
  {
    assert open == [open[0]] + open[1..];
    RunConcat(s, [open[0]], open[1..]);
    RunOne(s, open[0]);
    RunText(s.args, s.current, open[0], open[1..]);
  }

  /** The bit at the head of a command line, unless a quote is left open there. */
  lemma FirstBit(command: string) returns (b: Bit)
    requires command != "" && !ValidOpen(command)
    ensures ValidBit(b) && BitText(b) != "" && BitText(b) <= command
  {
    var c, rest := command[0], command[1..];
    if c == '\'' || c == '"' {
      var k := FirstOf(rest, c);
      b := Quoted(c, rest[..k]);
      assert command[..k + 2] == [c] + rest[..k] + [c];
    } else {
      b := if c == ' ' || c == '\t' || c == '\n' || c == '\r' then Blank(c) else Plain(c);
    }
  }

  /** Every command line can be cut so. */
  lemma {:induction false} CutsLine(command: string) returns (bits: seq<Bit>, open: string)
    ensures ValidBits(bits) && ValidOpen(open) && command == BitsText(bits) + open
    decreases |command|
  {
    hide BitText, ValidBit, ValidOpen;
    if ValidOpen(command) {
      assert BitsText([]) + command == command;
      return [], command;
    }
    NothingOpen();
    var b := FirstBit(command);
    var rest := command[|BitText(b)|..];
    bits, open := CutsLine(rest);
    bits := BitCons(b, bits, open);
  }

  lemma NothingOpen()
    ensures ValidOpen("")
  {
  }

  lemma BitCons(b: Bit, bits: seq<Bit>, open: string) returns (all: seq<Bit>)
    requires ValidBit(b) && ValidBits(bits)
    ensures ValidBits(all) && BitsText(all) + open == BitText(b) + (BitsText(bits) + open)
  {
    hide BitText, ValidBit;
    all := [b] + bits;
    assert all[1..] == bits;
    assert BitText(b) + BitsText(bits) + open == BitText(b) + (BitsText(bits) + open);
  }

  lemma {:induction false} FirstOf(s: string, c: char) returns (k: nat)
    requires c in s
    ensures k < |s| && s[k] == c && c !in s[..k]
    decreases |s|
  {
    if s[0] == c {
      k := 0;
    } else {
      k := FirstOf(s[1..], c);
      assert s[..k + 1] == [s[0]] + s[1..][..k];
      k := k + 1;
    }
  }
}
