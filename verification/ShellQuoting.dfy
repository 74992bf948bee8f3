// shellQuote and the command lines built with it (hack/remotevm/main.go:573-575, 593-595,
// 612-614), against the word splitting and quote removal of sections 2.2.1 to 2.2.3 of the
// Shell Command Language of POSIX.1-2017. Unquoted characters that start an operator, an
// expansion or a comment where they stand, and expansions inside double quotes, are outside the
// fragment: the tokeniser answers None for them.
module ShellQuoting {
  import opened Strings

  datatype Mode = Plain | Single | Double

  // Characters that stand for themselves outside quotes, inside a word.
  predicate PlainChar(c: char) {
    && c != '|' && c != '&' && c != ';' && c != '<' && c != '>' && c != '(' && c != ')'
    && c != '$' && c != '`' && c != '\\' && c != '"' && c != '\'' && c != ' ' && c != '\t'
    && c != '\n' && c != '*' && c != '?' && c != '['
  }

  // At the start of a word these begin a comment and a tilde expansion.
  predicate SpecialAtStart(c: char) {
    c == '#' || c == '~'
  }

  predicate Blank(c: char) {
    c == ' ' || c == '\t'
  }

  function Value(word: Option<string>): string {
    if word.Some? then word.value else ""
  }

  // What the tokeniser does next: how many characters it takes, and the mode and the word begun
  // so far behind them; a word that was begun and is None then has ended.
  datatype Move = Reject | Take(count: nat, mode: Mode, word: Option<string>)

  // c is the next character, d the one behind it, word the word begun so far (None between words).
  function Next(c: char, d: Option<char>, mode: Mode, word: Option<string>): (move: Move)
    requires !mode.Plain? ==> word.Some?
    ensures move.Take? ==>
      && 1 <= move.count <= (if d.Some? then 2 else 1)
      && (!move.mode.Plain? ==> move.word.Some?)
  {
    var w := Value(word);
    match mode
    case Single =>
      if c == '\'' then Take(1, Plain, word) else Take(1, Single, Some(w + [c]))
    case Double =>
      if c == '"' then Take(1, Plain, word)
      else if c == '$' || c == '`' then Reject
      else if c == '\\' && d.Some? && d.value in "$`\"\\" then Take(2, Double, Some(w + [d.value]))
      else if c == '\\' && d == Some('\n') then Take(2, Double, word)
      else Take(1, Double, Some(w + [c]))
    case Plain =>
      if Blank(c) then Take(1, Plain, None)
      else if c == '\'' then Take(1, Single, Some(w))
      else if c == '"' then Take(1, Double, Some(w))
      else if c == '\\' then
        if d.None? then Reject
        else if d.value == '\n' then Take(2, Plain, word)
        else Take(2, Plain, Some(w + [d.value]))
      else if PlainChar(c) && (word.Some? || !SpecialAtStart(c)) then Take(1, Plain, Some(w + [c]))
      else Reject
  }

  function Second(input: string): Option<char> {
    if |input| > 1 then Some(input[1]) else None
  }

  // The finished words after a move.
  function Finished(word: Option<string>, next: Option<string>, words: seq<string>): seq<string> {
    if word.Some? && next.None? then words + [word.value] else words
  }

  // words are the finished ones.
  function Scan(input: string, mode: Mode, word: Option<string>, words: seq<string>): Option<seq<string>>
    requires !mode.Plain? ==> word.Some?
    decreases |input|
  {
    if input == "" then
      if mode.Plain? then Some(Finished(word, None, words)) else None
    else
      match Next(input[0], Second(input), mode, word)
      case Reject => None
      case Take(n, m, next) => Scan(input[n..], m, next, Finished(word, next, words))
  }

  function Tokenize(command: string): Option<seq<string>> {
    Scan(command, Plain, None, [])
  }

  // --- Words of a tokenised text -------------------------------------------------------------

  lemma Associative(a: string, b: string, c: string)
    ensures a + b + c == a + (b + c)
  {
  }

  lemma AssociativeWords(a: seq<string>, b: seq<string>, c: seq<string>)
    ensures a + b + c == a + (b + c)
  {
  }

  lemma EmptySuffix(s: string)
    ensures s + "" == s
  {
  }

  lemma EmptyPrefix(s: string)
    ensures "" + s == s
  {
  }

  lemma NothingBefore(words: seq<string>)
    ensures [] + words == words
  {
  }

  // The k-th word of a tokenised text.
  ghost predicate HasWord(r: Option<seq<string>>, k: nat, value: string) {
    r.Some? && k < |r.value| && r.value[k] == value
  }

  ghost predicate WordStarts(r: Option<seq<string>>, k: nat, value: string) {
    r.Some? ==> k < |r.value| && value <= r.value[k]
  }

  lemma {:induction false} FinishedWordsStay(input: string, mode: Mode, word: Option<string>, words: seq<string>)
    requires !mode.Plain? ==> word.Some?
    ensures var r := Scan(input, mode, word, words); r.Some? ==> words <= r.value
    decreases |input|
  {
    if input != "" {
      var move := Next(input[0], Second(input), mode, word);
      if move.Take? {
        FinishedWordsStay(input[move.count..], move.mode, move.word, Finished(word, move.word, words));
      }
    }
  }

  // A word once begun only grows.
  lemma {:induction false} BegunWordGrows(input: string, mode: Mode, w: string, words: seq<string>)
    ensures WordStarts(Scan(input, mode, Some(w), words), |words|, w)
    decreases |input|
  {
    if input != "" {
      var move := Next(input[0], Second(input), mode, Some(w));
      if move.Take? {
        var rest := input[move.count..];
        if move.word.Some? {
          BegunWordGrows(rest, move.mode, move.word.value, words);
        } else {
          FinishedWordsStay(rest, move.mode, None, words + [w]);
        }
      }
    }
  }

  // A finished word is not a longer one.
  lemma EndedWordDiffers(input: string, w: string, words: seq<string>, name: string)
    requires w != name
    ensures !HasWord(Scan(input, Plain, None, words + [w]), |words|, name)
  {
    FinishedWordsStay(input, Plain, None, words + [w]);
  }

  // A begun word that disagrees with the name will not become it.
  lemma BegunWordDiffers(input: string, mode: Mode, w: string, words: seq<string>, name: string)
    requires !(w <= name)
    ensures !HasWord(Scan(input, mode, Some(w), words), |words|, name)
  {
    BegunWordGrows(input, mode, w, words);
  }

  // strings.ReplaceAll for a one-character pattern
  function ReplaceAll(s: string, old_: char, replacement: string): string {
    if s == "" then "" else (if s[0] == old_ then replacement else [s[0]]) + ReplaceAll(s[1..], old_, replacement)
  }

  // What shellQuote writes for a single quote: four characters, none of which closes the quotation
  // before the double quote.
  const QUOTED_QUOTE := "\"'\"'"

  function ShellQuote(value: string): string {
    "'" + ReplaceAll(value, '\'', QUOTED_QUOTE) + "'"
  }

  lemma OpeningQuote(value: string)
    ensures var body := ReplaceAll(value, '\'', QUOTED_QUOTE) + "'";
      ShellQuote(value) != "" && ShellQuote(value)[0] == '\'' && ShellQuote(value)[1..] == body
  {
    Associative("'", ReplaceAll(value, '\'', QUOTED_QUOTE), "'");
  }

  lemma ScanOpeningQuote(value: string, words: seq<string>)
    ensures var body := ReplaceAll(value, '\'', QUOTED_QUOTE) + "'";
      Scan(ShellQuote(value), Plain, None, words) == Scan(body, Single, Some(""), words)
  {
    OpeningQuote(value);
  }

  // --- Values without a single quote --------------------------------------------------------

  lemma {:induction false} NothingToReplace(value: string)
    requires '\'' !in value
    ensures ReplaceAll(value, '\'', QUOTED_QUOTE) == value
  {
    if value != "" {
      NothingToReplace(value[1..]);
      assert [value[0]] + value[1..] == value;
    }
  }

  // Inside the quotes the value is taken over and nothing ends early.
  lemma {:induction false} ScanQuoted(value: string, rest: string, w: string, words: seq<string>)
    requires '\'' !in value
    ensures Scan(value + rest, Single, Some(w), words) == Scan(rest, Single, Some(w + value), words)
    decreases |value|
  {
    if value == "" {
      assert value + rest == rest && w + value == w;
    } else {
      ScanQuoted(value[1..], rest, w + [value[0]], words);
      assert (value + rest)[0] == value[0] && (value + rest)[1..] == value[1..] + rest;
      assert w + [value[0]] + value[1..] == w + value;
    }
  }

  lemma ScanShellQuote(value: string, words: seq<string>)
    requires '\'' !in value
    ensures Scan(ShellQuote(value), Plain, None, words) == Some(words + [value])
  {
    NothingToReplace(value);
    ScanOpeningQuote(value, words);
    ScanQuoted(value, "'", "", words);
    EmptyPrefix(value);
    assert Scan("'", Single, Some(value), words) == Some(words + [value]);
  }

  // --- Values with a single quote -----------------------------------------------------------

  // At its first single quote the word goes on with a double quote.
  lemma {:induction false} QuoteIsLost(name: string, taken: string, rest: string, words: seq<string>)
    requires name == taken + rest && '\'' in rest
    ensures var input := ReplaceAll(rest, '\'', QUOTED_QUOTE) + "'";
      !HasWord(Scan(input, Single, Some(taken), words), |words|, name)
    decreases |rest|
  {
    var input, c := ReplaceAll(rest, '\'', QUOTED_QUOTE) + "'", rest[0];
    if c == '\'' {
      assert input[0] == QUOTED_QUOTE[0] == '"';
      assert Next('"', Second(input), Single, Some(taken)) == Take(1, Single, Some(taken + ['"']));
      assert (taken + ['"'])[|taken|] == '"' && name[|taken|] == c;
      BegunWordDiffers(input[1..], Single, taken + ['"'], words, name);
    } else {
      assert input[0] == c && input[1..] == ReplaceAll(rest[1..], '\'', QUOTED_QUOTE) + "'";
      assert name == taken + [c] + rest[1..];
      QuoteIsLost(name, taken + [c], rest[1..], words);
    }
  }

  lemma QuotedValueDiffers(value: string, words: seq<string>)
    requires '\'' in value
    ensures !HasWord(Scan(ShellQuote(value), Plain, None, words), |words|, value)
  {
    ScanOpeningQuote(value, words);
    EmptyPrefix(value);
    QuoteIsLost(value, "", value, words);
  }

  // A quoted value is one word equal to it exactly if it has no single quote.
  lemma QuotingRoundTripIff(value: string)
    ensures Tokenize(ShellQuote(value)) == Some([value]) <==> '\'' !in value
  {
    if '\'' in value {
      QuotedValueDiffers(value, []);
    } else {
      ScanShellQuote(value, []);
      NothingBefore([value]);
    }
  }

  // Characters that double quotes take over as they are.
  predicate LiteralInDoubleQuotes(c: char) {
    c != '"' && c != '\\' && c != '$' && c != '`'
  }

  lemma {:induction false} DoubleQuotesStayOpen(text: string, w: string, words: seq<string>)
    requires forall i :: 0 <= i < |text| ==> LiteralInDoubleQuotes(text[i])
    ensures Scan(text, Double, Some(w), words) == None
  {
    if text != "" {
      DoubleQuotesStayOpen(text[1..], w + [text[0]], words);
    }
  }

  // The replacement opens double quotes and leaves them open.
  lemma ScanQuotedQuote(rest: string, w: string, words: seq<string>)
    ensures Scan(QUOTED_QUOTE + rest, Single, Some(w), words) == Scan(rest, Double, Some(w + ['"'] + ['\'']), words)
  {
    var s := QUOTED_QUOTE + rest;
    assert s[0] == '"' && s[1] == '\'' && s[2] == '"' && s[3] == '\'' && s[4..] == rest;
    assert s[1..][1..] == s[2..] && s[2..][1..] == s[3..] && s[3..][1..] == s[4..];
    assert Scan(s, Single, Some(w), words) == Scan(s[1..], Single, Some(w + ['"']), words);
    assert Scan(s[1..], Single, Some(w + ['"']), words) == Scan(s[2..], Plain, Some(w + ['"']), words);
    assert Scan(s[2..], Plain, Some(w + ['"']), words) == Scan(s[3..], Double, Some(w + ['"']), words);
  }

  lemma {:induction false} ReplaceAcross(a: string, b: string)
    ensures ReplaceAll(a + b, '\'', QUOTED_QUOTE)
         == ReplaceAll(a, '\'', QUOTED_QUOTE) + ReplaceAll(b, '\'', QUOTED_QUOTE)
    decreases |a|
  {
    if a == "" {
      assert a + b == b;
    } else {
      ReplaceAcross(a[1..], b);
      assert (a + b)[0] == a[0] && (a + b)[1..] == a[1..] + b;
      Associative(if a[0] == '\'' then QUOTED_QUOTE else [a[0]], ReplaceAll(a[1..], '\'', QUOTED_QUOTE),
                  ReplaceAll(b, '\'', QUOTED_QUOTE));
    }
  }

  // What an apostrophe in ordinary text does, a lone one included: the command ends inside open
  // double quotes, so that it is no command at all.
  lemma ApostropheLeavesItOpen(front: string, back: string, words: seq<string>)
    requires '\'' !in front && '\'' !in back
    requires forall i :: 0 <= i < |back| ==> LiteralInDoubleQuotes(back[i])
    ensures Scan(ShellQuote(front + ("'" + back)), Plain, None, words) == None
  {
    var value, rest := front + ("'" + back), back + "'";
    ReplaceAcross(front, "'" + back);
    NothingToReplace(front);
    NothingToReplace(back);
    assert ("'" + back)[1..] == back;
    ScanOpeningQuote(value, words);
    Associative(front, QUOTED_QUOTE + back, "'");
    Associative(QUOTED_QUOTE, back, "'");
    ScanQuoted(front, QUOTED_QUOTE + rest, "", words);
    ScanQuotedQuote(rest, "" + front, words);
    DoubleQuotesStayOpen(rest, "" + front + ['"'] + ['\''], words);
  }

  // For instance.
  lemma LoneQuoteIsLost()
    ensures ShellQuote("'") == "'\"'\"''" && Tokenize(ShellQuote("'")) == None
  {
    assert "" + ("'" + "") == "'";
    ApostropheLeavesItOpen("", "", []);
    assert ReplaceAll("'", '\'', QUOTED_QUOTE) == QUOTED_QUOTE;
  }

  // --- No two values are quoted alike -------------------------------------------------------

  lemma {:induction false} ReplaceIsInjective(a: string, b: string)
    requires ReplaceAll(a, '\'', QUOTED_QUOTE) == ReplaceAll(b, '\'', QUOTED_QUOTE)
    ensures a == b
    decreases |a|
  {
    ReplaceStarts(a);
    ReplaceStarts(b);
    if a != "" && b != "" {
      ReplaceStarts(a[1..]);
      ReplaceStarts(b[1..]);
      var x, y := ReplaceAll(a, '\'', QUOTED_QUOTE), ReplaceAll(b, '\'', QUOTED_QUOTE);
      assert a[0] == b[0];
      var n := if a[0] == '\'' then 4 else 1;
      assert x[n..] == ReplaceAll(a[1..], '\'', QUOTED_QUOTE) && y[n..] == ReplaceAll(b[1..], '\'', QUOTED_QUOTE);
      ReplaceIsInjective(a[1..], b[1..]);
      assert a == [a[0]] + a[1..] && b == [b[0]] + b[1..];
    }
  }

  // A single quote in the output always has a double quote before it, so it never comes first.
  lemma ReplaceStarts(value: string)
    ensures var r := ReplaceAll(value, '\'', QUOTED_QUOTE);
      && (r == "" <==> value == "")
      && (value != "" ==> r[0] == if value[0] == '\'' then '"' else value[0])
      && (value != "" && value[0] == '\'' ==> |r| >= 4 && r[1] == '\'')
  {
    if value != "" && value[0] == '\'' {
      assert QUOTED_QUOTE[0] == '"' && QUOTED_QUOTE[1] == '\'';
    }
  }

  lemma QuotingIsInjective(a: string, b: string)
    requires ShellQuote(a) == ShellQuote(b)
    ensures a == b
  {
    var x, y := ReplaceAll(a, '\'', QUOTED_QUOTE), ReplaceAll(b, '\'', QUOTED_QUOTE);
    assert x == ShellQuote(a)[1..|x| + 1] && y == ShellQuote(b)[1..|y| + 1] && |x| == |y|;
    ReplaceIsInjective(a, b);
  }

  // --- Plain words ----------------------------------------------------------------------------

  // A word that needs no quoting.
  predicate PlainWord(s: string) {
    s != "" && !SpecialAtStart(s[0]) && forall i :: 0 <= i < |s| ==> PlainChar(s[i])
  }

  lemma {:induction false} ScanPlain(s: string, rest: string, w: string, words: seq<string>)
    requires forall i :: 0 <= i < |s| ==> PlainChar(s[i])
    ensures Scan(s + rest, Plain, Some(w), words) == Scan(rest, Plain, Some(w + s), words)
    decreases |s|
  {
    if s == "" {
      assert s + rest == rest && w + s == w;
    } else {
      ScanPlain(s[1..], rest, w + [s[0]], words);
      assert (s + rest)[0] == s[0] && (s + rest)[1..] == s[1..] + rest;
      assert w + [s[0]] + s[1..] == w + s;
    }
  }

  lemma ScanPlainFront(front: string, rest: string, words: seq<string>)
    requires PlainWord(front)
    ensures Scan(front + rest, Plain, None, words) == Scan(rest, Plain, Some(front), words)
  {
    assert (front + rest)[0] == front[0] && (front + rest)[1..] == front[1..] + rest;
    ScanPlain(front[1..], rest, "" + [front[0]], words);
    assert "" + [front[0]] + front[1..] == front;
  }

  // A plain word followed by a blank.
  lemma ScanWord(s: string, rest: string, words: seq<string>)
    requires PlainWord(s)
    ensures Scan(s + " " + rest, Plain, None, words) == Scan(rest, Plain, None, words + [s])
  {
    var after := " " + rest;
    ScanPlainFront(s, after, words);
    Associative(s, " ", rest);
    assert after[0] == ' ' && after[1..] == rest;
    assert Next(' ', Second(after), Plain, Some(s)) == Take(1, Plain, None);
  }

  function Spaced(ws: seq<string>): string {
    if ws == [] then "" else ws[0] + " " + Spaced(ws[1..])
  }

  lemma {:induction false} ScanWords(ws: seq<string>, rest: string, words: seq<string>)
    requires forall i :: 0 <= i < |ws| ==> PlainWord(ws[i])
    ensures Scan(Spaced(ws) + rest, Plain, None, words) == Scan(rest, Plain, None, words + ws)
    decreases |ws|
  {
    if ws == [] {
      assert words + ws == words && Spaced(ws) + rest == rest;
    } else {
      var tail := Spaced(ws[1..]) + rest;
      Associative(ws[0] + " ", Spaced(ws[1..]), rest);
      ScanWord(ws[0], tail, words);
      ScanWords(ws[1..], rest, words + [ws[0]]);
      assert ws == [ws[0]] + ws[1..];
      AssociativeWords(words, [ws[0]], ws[1..]);
    }
  }

  // Plain words, each followed by a blank, and one quoted value.
  lemma TokenizeCommand(ws: seq<string>, value: string)
    requires forall i :: 0 <= i < |ws| ==> PlainWord(ws[i])
    ensures Tokenize(Spaced(ws) + ShellQuote(value)) == Some(ws + [value]) <==> '\'' !in value
  {
    ScanWords(ws, ShellQuote(value), []);
    NothingBefore(ws);
    if '\'' in value {
      QuotedValueDiffers(value, ws);
      assert (ws + [value])[|ws|] == value;
    } else {
      ScanShellQuote(value, ws);
    }
  }

  function FixedWords(vmName: string): seq<string> {
    ["multipass", "exec", vmName, "--", "bash", "-lc"]
  }

  const AFTER_NAME := " -- bash -lc "

  // MultipassExec (main.go:573-575): vmName is pasted in as it is.
  function MultipassExec(vmName: string, cmd: string): string {
    "multipass exec " + vmName + AFTER_NAME + ShellQuote(cmd)
  }

  lemma SpacedOneMore(w: string, ws: seq<string>)
    ensures Spaced([w] + ws) == w + " " + Spaced(ws)
  {
    assert ([w] + ws)[1..] == ws;
  }

  lemma SpacedSuffix()
    ensures Spaced(["--", "bash", "-lc"]) == "-- bash -lc "
  {
    SpacedOneMore("-lc", []);
    SpacedOneMore("bash", ["-lc"]);
    SpacedOneMore("--", ["bash", "-lc"]);
    assert ["bash"] + ["-lc"] == ["bash", "-lc"];
    assert ["--"] + ["bash", "-lc"] == ["--", "bash", "-lc"];
  }

  lemma {:induction false} SpacedConcat(a: seq<string>, b: seq<string>)
    ensures Spaced(a + b) == Spaced(a) + Spaced(b)
  {
    if a == [] {
      assert a + b == b;
    } else {
      SpacedConcat(a[1..], b);
      assert (a + b)[1..] == a[1..] + b;
      Associative(a[0] + " ", Spaced(a[1..]), Spaced(b));
    }
  }

  lemma FrontIsSpaced()
    ensures Spaced(["multipass", "exec"]) == "multipass exec "
  {
    SpacedOneMore("exec", []);
    SpacedOneMore("multipass", ["exec"]);
    assert ["multipass"] + ["exec"] == ["multipass", "exec"];
  }

  lemma NameIsSpaced(vmName: string)
    ensures Spaced([vmName] + ["--", "bash", "-lc"]) == vmName + AFTER_NAME
  {
    SpacedOneMore(vmName, ["--", "bash", "-lc"]);
    SpacedSuffix();
    Associative(vmName, " ", "-- bash -lc ");
    assert " " + "-- bash -lc " == AFTER_NAME;
  }

  lemma FixedWordsSpaced(vmName: string)
    ensures Spaced(FixedWords(vmName)) == "multipass exec " + (vmName + AFTER_NAME)
  {
    var front, back := ["multipass", "exec"], [vmName] + ["--", "bash", "-lc"];
    assert FixedWords(vmName) == front + back;
    SpacedConcat(front, back);
    FrontIsSpaced();
    NameIsSpaced(vmName);
  }

  lemma MultipassExecIsSpaced(vmName: string, cmd: string)
    ensures MultipassExec(vmName, cmd) == Spaced(FixedWords(vmName)) + ShellQuote(cmd)
    ensures MultipassExec(vmName, cmd) == Spaced(["multipass", "exec"]) + (vmName + (AFTER_NAME + ShellQuote(cmd)))
  {
    var quoted := ShellQuote(cmd);
    FixedWordsSpaced(vmName);
    FrontIsSpaced();
    Associative("multipass exec ", vmName, AFTER_NAME);
    Associative("multipass exec " + vmName, AFTER_NAME, quoted);
    Associative("multipass exec ", vmName, AFTER_NAME + quoted);
  }

  // For a plain name the remote shell sees the fixed words, the name and the whole script
  // unchanged exactly if the script has no single quote.
  lemma PlainNameRoundTripIff(vmName: string, cmd: string)
    requires PlainWord(vmName)
    ensures Tokenize(MultipassExec(vmName, cmd)) == Some(FixedWords(vmName) + [cmd]) <==> '\'' !in cmd
  {
    MultipassExecIsSpaced(vmName, cmd);
    var ws := FixedWords(vmName);
    assert PlainWord(ws[0]) && PlainWord(ws[1]) && PlainWord(ws[3]) && PlainWord(ws[4]) && PlainWord(ws[5]);
    TokenizeCommand(ws, cmd);
  }

  function Total(words: seq<string>): nat {
    if words == [] then 0 else Total(words[..|words| - 1]) + |words[|words| - 1]|
  }

  lemma TotalOneMore(words: seq<string>, w: string)
    ensures Total(words + [w]) == Total(words) + |w|
  {
    assert (words + [w])[..|words|] == words;
  }

  function Size(word: Option<string>): nat {
    if word.Some? then |word.value| else 0
  }

  lemma FinishedTotal(word: Option<string>, next: Option<string>, words: seq<string>)
    ensures Total(Finished(word, next, words)) == Total(words) + (if next.None? then Size(word) else 0)
  {
    if word.Some? {
      TotalOneMore(words, word.value);
    }
  }

  // Scanning never lengthens: each input character becomes at most one output character.
  lemma {:induction false} ScanNeverLengthens(input: string, mode: Mode, word: Option<string>, words: seq<string>)
    requires !mode.Plain? ==> word.Some?
    ensures var r := Scan(input, mode, word, words);
      r.Some? ==> Total(r.value) <= Total(words) + Size(word) + |input|
    decreases |input|
  {
    FinishedTotal(word, None, words);
    if input != "" {
      var move := Next(input[0], Second(input), mode, word);
      if move.Take? {
        FinishedTotal(word, move.word, words);
        ScanNeverLengthens(input[move.count..], move.mode, move.word, Finished(word, move.word, words));
      }
    }
  }

  // A character that is not plain costs at least one.
  lemma {:induction false} SpecialCharactersCost(input: string, word: Option<string>, words: seq<string>)
    requires exists i :: 0 <= i < |input| && !PlainChar(input[i])
    ensures var r := Scan(input, Plain, word, words);
      r.Some? ==> Total(r.value) < Total(words) + Size(word) + |input|
    decreases |input|
  {
    var move := Next(input[0], Second(input), Plain, word);
    if move.Take? {
      var rest, finished := input[move.count..], Finished(word, move.word, words);
      FinishedTotal(word, move.word, words);
      if PlainChar(input[0]) {
        var i :| 0 <= i < |input| && !PlainChar(input[i]);
        assert rest[i - 1] == input[i];
        SpecialCharactersCost(rest, move.word, finished);
      } else {
        ScanNeverLengthens(rest, move.mode, move.word, finished);
      }
    }
  }

  // Exactly the plain words may be pasted without quotes and stay one word, unchanged.
  lemma UnquotedIffPlain(s: string)
    ensures Tokenize(s) == Some([s]) <==> PlainWord(s)
  {
    if PlainWord(s) {
      ScanPlainFront(s, "", []);
      EmptySuffix(s);
      NothingBefore([s]);
    } else if s != "" && !SpecialAtStart(s[0]) {
      SpecialCharactersCost(s, None, []);
      TotalOneMore([], s);
      NothingBefore([s]);
    }
  }

  // --- Names that are pasted in without quotes ----------------------------------------------

  // The word holds fewer characters than the part of the name that was taken for it. mark is a
  // character that this part does not contain.
  ghost predicate Lags(taken: string, mode: Mode, word: Option<string>, mark: char) {
    && |Value(word)| < |taken| && mark !in taken
    && (!mode.Plain? ==> word.Some?)
    && (mark == '-' || (mark == ' ' && word.Some?))
  }

  // The characters that a move takes.
  function Moved(c: char, d: Option<char>, n: nat): string
    requires n > 1 ==> d.Some?
  {
    if n <= 1 then [c] else [c, d.value]
  }

  // A move keeps the word behind, ends it, or adds the mark too early.
  lemma MoveLags(taken: string, c: char, d: Option<char>, mode: Mode, word: Option<string>, mark: char)
    requires Lags(taken, mode, word, mark)
    ensures var move := Next(c, d, mode, word);
      move.Take? ==>
        || (word.Some? && move.word.None?)
        || move.word == Some(Value(word) + [mark])
        || Lags(taken + Moved(c, d, move.count), move.mode, move.word, mark)
  {
  }

  lemma MarkTooEarly(name: string, taken: string, w: string, mark: char)
    requires taken <= name && |w| < |taken| && mark !in taken
    ensures !(w + [mark] <= name)
  {
    assert (w + [mark])[|w|] == mark && name[|w|] == taken[|w|];
  }

  // The blank and the dash behind the name make a lagging word differ from it.
  lemma BlankAndDashDiffer(name: string, w: string, mark: char)
    requires |w| < |name| && mark !in name && (mark == '-' || mark == ' ')
    ensures !(w + [' '] + ['-'] <= name)
  {
    var more := w + [' '] + ['-'];
    assert more[|w|] == ' ' && more[|w| + 1] == '-';
    assert name[|w|] != mark && (|w| + 1 < |name| ==> name[|w| + 1] != mark);
  }

  lemma TailStarts(tail: string)
    requires AFTER_NAME <= tail
    ensures |tail| > 1 && tail[0] == ' ' && tail[1] == '-' && tail[1..][0] == '-'
  {
    assert tail[0] == AFTER_NAME[0] && tail[1] == AFTER_NAME[1];
  }

  // The blank has been taken into the word, and the dash follows.
  lemma DashFollows(name: string, tail: string, mode: Mode, w: string, words: seq<string>, mark: char)
    requires AFTER_NAME <= tail && |w| < |name| && mark !in name && (mark == '-' || mark == ' ')
    ensures !HasWord(Scan(tail[1..], mode, Some(w + [' ']), words), |words|, name)
  {
    TailStarts(tail);
    var more := w + [' '] + ['-'];
    assert Next('-', Second(tail[1..]), mode, Some(w + [' '])) == Take(1, mode, Some(more));
    BlankAndDashDiffer(name, w, mark);
    BegunWordDiffers(tail[1..][1..], mode, more, words, name);
  }

  // The name has been taken, and the word that it was to be lags behind.
  lemma EndOfLaggingName(name: string, tail: string, mode: Mode, word: Option<string>, words: seq<string>, mark: char)
    requires AFTER_NAME <= tail && Lags(name, mode, word, mark)
    ensures !HasWord(Scan(tail, mode, word, words), |words|, name)
  {
    TailStarts(tail);
    var w := Value(word);
    if !mode.Plain? {
      assert Next(' ', Second(tail), mode, word) == Take(1, mode, Some(w + [' ']));
      DashFollows(name, tail, mode, w, words, mark);
    } else if word.Some? {
      EndedWordDiffers(tail[1..], w, words, name);
    } else {
      assert Next('-', Second(tail[1..]), Plain, None) == Take(1, Plain, Some("" + ['-']));
      MarkTooEarly(name, name, "", '-');
      BegunWordDiffers(tail[1..][1..], Plain, "" + ['-'], words, name);
    }
  }

  // The first characters of what is left of the name and what follows it.
  lemma FirstOf(rest: string, tail: string)
    requires rest != "" && tail != ""
    ensures (rest + tail)[0] == rest[0]
    ensures Second(rest + tail) == Some(if |rest| > 1 then rest[1] else tail[0])
  {
  }

  // A move inside the name.
  lemma MoveInside(name: string, taken: string, rest: string, tail: string, n: nat)
    requires name == taken + rest && 1 <= n <= 2 && n <= |rest| && tail != ""
    ensures (rest + tail)[n..] == rest[n..] + tail
    ensures name == taken + Moved(rest[0], Second(rest + tail), n) + rest[n..]
  {
    FirstOf(rest, tail);
    assert rest[..n] == Moved(rest[0], Second(rest + tail), n);
    assert rest == rest[..n] + rest[n..];
    Associative(taken, rest[..n], rest[n..]);
  }

  // An escape that takes the last character of the name and the blank behind it.
  lemma MoveBeyond(name: string, taken: string, rest: string, tail: string)
    requires name == taken + rest && |rest| == 1 && tail != ""
    ensures (rest + tail)[2..] == tail[1..] && name == taken + [rest[0]]
  {
  }

  // A name whose word has fallen behind does not come out as that word.
  lemma {:induction false} LaggingNameDiffers(name: string, taken: string, rest: string, tail: string, mode: Mode,
                                              word: Option<string>, words: seq<string>, mark: char)
    requires AFTER_NAME <= tail && Lags(taken, mode, word, mark) && name == taken + rest
    ensures !HasWord(Scan(rest + tail, mode, word, words), |words|, name)
    decreases |rest|
  {
    TailStarts(tail);
    if rest == "" {
      assert rest + tail == tail && name == taken;
      EndOfLaggingName(name, tail, mode, word, words, mark);
    } else {
      var c, d := rest[0], Second(rest + tail);
      var move := Next(c, d, mode, word);
      FirstOf(rest, tail);
      MoveLags(taken, c, d, mode, word, mark);
      if move.Take? {
        var w, left := Value(word), (rest + tail)[move.count..];
        if word.Some? && move.word.None? {
          EndedWordDiffers(left, w, words, name);
        } else if move.word == Some(w + [mark]) {
          MarkTooEarly(name, taken, w, mark);
          BegunWordDiffers(left, move.mode, w + [mark], words, name);
        } else if move.count > |rest| {
          MoveBeyond(name, taken, rest, tail);
          DashFollows(name, tail, Plain, w, words, mark);
        } else {
          MoveInside(name, taken, rest, tail, move.count);
          LaggingNameDiffers(name, taken + Moved(c, d, move.count), rest[move.count..], tail, move.mode, move.word,
                             words, mark);
        }
      }
    }
  }

  function BegunWord(front: string): Option<string> {
    if front == "" then None else Some(front)
  }

  // Where plain characters are followed by a special one the word falls behind.
  lemma SpecialFallsBehind(front: string, c: char, d: Option<char>)
    requires forall i :: 0 <= i < |front| ==> PlainChar(front[i])
    requires !PlainChar(c) || (front == "" && SpecialAtStart(c))
    ensures var mark := if front == "" then '-' else ' ';
      var word := BegunWord(front);
      var move := Next(c, d, Plain, word);
      move.Take? ==>
        || (word.Some? && move.word.None?)
        || (c == '\\' && d.value != '\\' && d.value != '\n')
        || Lags(front + Moved(c, d, move.count), move.mode, move.word, mark)
  {
  }

  // A quotation, a blank before the word, or an escape whose character goes into the word: the
  // word falls behind.
  lemma FallenBehindDiffers(name: string, front: string, rest: string, tail: string, words: seq<string>, mark: char)
    requires AFTER_NAME <= tail && rest != "" && name == front + rest
    requires var d := Second(rest + tail);
      var move := Next(rest[0], d, Plain, BegunWord(front));
      && move.Take? && move.count <= |rest| && !(front != "" && move.word.None?)
      && Lags(front + Moved(rest[0], d, move.count), move.mode, move.word, mark)
    ensures !HasWord(Scan(rest + tail, Plain, BegunWord(front), words), |words|, name)
  {
    TailStarts(tail);
    FirstOf(rest, tail);
    var d := Second(rest + tail);
    var move := Next(rest[0], d, Plain, BegunWord(front));
    MoveInside(name, front, rest, tail, move.count);
    LaggingNameDiffers(name, front + Moved(rest[0], d, move.count), rest[move.count..], tail, move.mode, move.word,
                       words, mark);
  }

  lemma ScanEscape(input: string, x: char, word: Option<string>, words: seq<string>)
    requires input != "" && input[0] == '\\' && Second(input) == Some(x) && x != '\n'
    ensures Scan(input, Plain, word, words) == Scan(input[2..], Plain, Some(Value(word) + [x]), words)
  {
    assert Next('\\', Some(x), Plain, word) == Take(2, Plain, Some(Value(word) + [x]));
  }

  lemma NoPrefix(name: string, front: string, x: char)
    requires front < name && name[|front|] != x
    ensures !(front + [x] <= name)
  {
    assert (front + [x])[|front|] == x;
  }

  // The escaped character stands where the name has its backslash.
  lemma EscapedWordDiffers(name: string, front: string, input: string, x: char, words: seq<string>)
    requires front < name && name[|front|] == '\\' && x != '\\' && x != '\n'
    requires input != "" && input[0] == '\\' && Second(input) == Some(x)
    ensures !HasWord(Scan(input, Plain, BegunWord(front), words), |words|, name)
  {
    ScanEscape(input, x, BegunWord(front), words);
    NoPrefix(name, front, x);
    BegunWordDiffers(input[2..], Plain, front + [x], words, name);
  }

  lemma EscapeDiffers(name: string, front: string, rest: string, tail: string, words: seq<string>)
    requires AFTER_NAME <= tail && rest != "" && name == front + rest && rest[0] == '\\'
    requires forall i :: 0 <= i < |front| ==> PlainChar(front[i])
    ensures !HasWord(Scan(rest + tail, Plain, BegunWord(front), words), |words|, name)
  {
    TailStarts(tail);
    FirstOf(rest, tail);
    var x := Second(rest + tail).value;
    if x != '\\' && x != '\n' {
      EscapedWordDiffers(name, front, rest + tail, x, words);
    } else {
      SpecialFallsBehind(front, rest[0], Second(rest + tail));
      FallenBehindDiffers(name, front, rest, tail, words, if front == "" then '-' else ' ');
    }
  }

  // A name with a special character behind its plain front.
  lemma SpecialNameDiffers(name: string, front: string, rest: string, tail: string, words: seq<string>)
    requires AFTER_NAME <= tail && rest != "" && name == front + rest
    requires forall i :: 0 <= i < |front| ==> PlainChar(front[i])
    requires !PlainChar(rest[0]) || (front == "" && SpecialAtStart(rest[0]))
    ensures !HasWord(Scan(rest + tail, Plain, BegunWord(front), words), |words|, name)
  {
    var c := rest[0];
    FirstOf(rest, tail);
    if c == '\\' {
      EscapeDiffers(name, front, rest, tail, words);
    } else if Blank(c) && front != "" {
      EndedWordDiffers((rest + tail)[1..], front, words, name);
    } else if Blank(c) || c == '\'' || c == '"' {
      SpecialFallsBehind(front, c, Second(rest + tail));
      FallenBehindDiffers(name, front, rest, tail, words, if front == "" then '-' else ' ');
    }
  }

  lemma FirstSpecial(name: string) returns (n: nat)
    requires !PlainWord(name) && name != "" && PlainChar(name[0]) && !SpecialAtStart(name[0])
    ensures 0 < n < |name| && !PlainChar(name[n]) && PlainWord(name[..n])
  {
    n := 1;
    while n < |name| && PlainChar(name[n])
      invariant 0 < n <= |name|
      invariant forall i :: 0 <= i < n ==> PlainChar(name[i])
    {
      n := n + 1;
    }
  }

  lemma EmptyNameDiffers(tail: string, words: seq<string>)
    requires AFTER_NAME <= tail
    ensures !HasWord(Scan(tail, Plain, None, words), |words|, "")
  {
    TailStarts(tail);
    var w := "" + ['-'];
    assert Next('-', Second(tail[1..]), Plain, None) == Take(1, Plain, Some(w));
    BegunWordGrows(tail[1..][1..], Plain, w, words);
  }

  lemma SpecialInsideDiffers(name: string, tail: string, words: seq<string>)
    requires AFTER_NAME <= tail && !PlainWord(name)
    requires name != "" && PlainChar(name[0]) && !SpecialAtStart(name[0])
    ensures !HasWord(Scan(name + tail, Plain, None, words), |words|, name)
  {
    var n := FirstSpecial(name);
    var front, rest := name[..n], name[n..];
    ScanPlainFront(front, rest + tail, words);
    assert front + rest == name;
    Associative(front, rest, tail);
    SpecialNameDiffers(name, front, rest, tail, words);
  }

  // Whatever is pasted in, a name that is not a plain word does not come out as its word.
  lemma OtherNamesDiffer(name: string, tail: string, words: seq<string>)
    requires AFTER_NAME <= tail && !PlainWord(name)
    ensures !HasWord(Scan(name + tail, Plain, None, words), |words|, name)
  {
    if name == "" {
      assert name + tail == tail;
      EmptyNameDiffers(tail, words);
    } else if !PlainChar(name[0]) || SpecialAtStart(name[0]) {
      assert "" + name == name;
      SpecialNameDiffers(name, "", name, tail, words);
    } else {
      SpecialInsideDiffers(name, tail, words);
    }
  }

  // Exactly when does the command come out as meant? The name must be a plain word and the script
  // must not have a single quote.
  lemma MultipassExecTokenizesIff(vmName: string, cmd: string)
    ensures Tokenize(MultipassExec(vmName, cmd)) == Some(FixedWords(vmName) + [cmd]) <==>
      PlainWord(vmName) && '\'' !in cmd
  {
    if PlainWord(vmName) {
      PlainNameRoundTripIff(vmName, cmd);
    } else {
      var front, tail := ["multipass", "exec"], AFTER_NAME + ShellQuote(cmd);
      MultipassExecIsSpaced(vmName, cmd);
      assert PlainWord(front[0]) && PlainWord(front[1]);
      ScanWords(front, vmName + tail, []);
      NothingBefore(front);
      OtherNamesDiffer(vmName, tail, front);
      assert (FixedWords(vmName) + [cmd])[2] == vmName;
    }
  }

  // --- The script that runs the tests ---------------------------------------------------------

  // Go's %q neither drops nor adds single quotes.
  ghost predicate KeepsSingleQuotes(quoted: string -> string) {
    forall s: string :: '\'' in quoted(s) <==> '\'' in s
  }

  // The script of runTestsAndFetch (main.go:361-366); quoted is the %q verb.
  function TestScript(quoted: string -> string, vmRepo: string, testCmd: string, logName: string): string {
    var cd := "cd " + quoted(vmRepo) + " || exit 1";
    var rm := "rm -f " + quoted(logName);
    var test := "{ " + testCmd + " ; } > " + quoted(logName) + " 2>&1";
    var echo := "echo \"EXITCODE=$?\" >> " + quoted(logName);
    cd + "; " + rm + "; " + test + "; " + echo
  }

  lemma QuotesOfTestScript(quoted: string -> string, vmRepo: string, testCmd: string, logName: string)
    requires KeepsSingleQuotes(quoted)
    ensures '\'' in TestScript(quoted, vmRepo, testCmd, logName) <==>
      '\'' in vmRepo || '\'' in testCmd || '\'' in logName
  {
  }

  // The tests can be run on a machine with a plain name exactly if neither the path of its
  // repository nor the test command nor the log's name has a single quote.
  lemma TestScriptArrivesIff(quoted: string -> string, vmName: string, vmRepo: string, testCmd: string, logName: string)
    requires KeepsSingleQuotes(quoted)
    ensures var script := TestScript(quoted, vmRepo, testCmd, logName);
      Tokenize(MultipassExec(vmName, script)) == Some(FixedWords(vmName) + [script]) <==>
      PlainWord(vmName) && '\'' !in vmRepo && '\'' !in testCmd && '\'' !in logName
  {
    QuotesOfTestScript(quoted, vmRepo, testCmd, logName);
    MultipassExecTokenizesIff(vmName, TestScript(quoted, vmRepo, testCmd, logName));
  }
}
