// The one-line record that executor.sh writes (executor.sh:28) and the loop with which
// healthcheck.sh takes the exit code out of it (healthcheck.sh:14-41).
module ExitCodeText {
  import opened Strings

  // What healthcheck.sh looks for, and what executor.sh echoes before the code.
  const PREFIX := "exit_code:"
  const ECHOED := "exit_code:"

  function Digit(d: nat): char
    requires d < 10
  {
    "0123456789"[d]
  }

  predicate Digits(s: string) {
    forall i :: 0 <= i < |s| ==> '0' <= s[i] <= '9'
  }

  // How the shell prints a number.
  function Decimal(n: nat): (s: string)
    ensures s != "" && Digits(s)
  {
    if n < 10 then [Digit(n)] else Decimal(n / 10) + [Digit(n % 10)]
  }

  // The value of a string of digits in shell arithmetic.
  function ValueOf(s: string): nat
    requires Digits(s)
  {
    if s == "" then 0 else 10 * ValueOf(s[..|s| - 1]) + (s[|s| - 1] as int - '0' as int)
  }

  lemma {:induction false} ValueOfDecimal(n: nat)
    ensures ValueOf(Decimal(n)) == n
  {
    if n >= 10 {
      ValueOfDecimal(n / 10);
      assert Decimal(n)[..|Decimal(n)| - 1] == Decimal(n / 10);
    }
  }

  function Record(code: nat): string {
    ECHOED + Decimal(code) + "\n"
  }

  // The lines that `read` accepts: a last line without a newline is not among them.
  function CompleteLines(text: string): seq<string> {
    var parts := Split(text, '\n');
    parts[..|parts| - 1]
  }

  function CodeOf(line: string): string
    requires HasPrefix(line, PREFIX)
  {
    line[|PREFIX|..]
  }

  // The code in the first matching line; "" if there is none.
  function FirstCode(lines: seq<string>): string {
    if lines == [] then ""
    else if HasPrefix(lines[0], PREFIX) then CodeOf(lines[0])
    else FirstCode(lines[1..])
  }

  function ExtractCode(text: string): string {
    FirstCode(CompleteLines(text))
  }

  method ReadExitCode(text: string) returns (exitCode: string)
    ensures exitCode == ExtractCode(text)
  {
    exitCode := "";
    var lines := CompleteLines(text);
    var i := 0;
    while i < |lines|
      invariant 0 <= i <= |lines|
      invariant exitCode == ""
      invariant ExtractCode(text) == FirstCode(lines[i..])
    {
      var line := lines[i];
      assert lines[i..][1..] == lines[i + 1..];
      if HasPrefix(line, PREFIX) {
        exitCode := CodeOf(line);
        break;
      }
      i := i + 1;
    }
  }

  lemma SplitOfMore(s: string, x: string)
    requires s != ""
    ensures Split(s + x, '\n') == Prepend(s[0], Split(s[1..] + x, '\n'), '\n')
  {
    assert (s + x)[0] == s[0] && (s + x)[1..] == s[1..] + x;
  }

  // More text only adds complete lines.
  lemma {:induction false} SplitGrows(s: string, x: string)
    ensures |Split(s, '\n')| <= |Split(s + x, '\n')|
    ensures CompleteLines(s) <= CompleteLines(s + x)
  {
    if s != "" {
      SplitGrows(s[1..], x);
      SplitOfMore(s, x);
      PrependKeepsPrefix(s[0], Split(s[1..], '\n'), Split(s[1..] + x, '\n'));
    }
  }

  lemma PrependKeepsPrefix(c: char, p: seq<string>, q: seq<string>)
    requires 0 < |p| <= |q| && p[..|p| - 1] <= q[..|q| - 1]
    ensures var a, b := Prepend(c, p, '\n'), Prepend(c, q, '\n');
      |a| <= |b| && a[..|a| - 1] <= b[..|b| - 1]
  {
    var a, b := Prepend(c, p, '\n'), Prepend(c, q, '\n');
    assert forall k :: 0 <= k < |p| - 1 ==> p[..|p| - 1][k] == p[k] == q[k];
    assert forall k :: 0 <= k < |a| - 1 ==> a[k] == b[k];
  }

  lemma {:induction false} FirstCodeOfPrefix(lines: seq<string>, all: seq<string>)
    requires lines <= all
    ensures FirstCode(lines) in {"", FirstCode(all)}
    decreases |lines|
  {
    if lines != [] {
      FirstCodeOfPrefix(lines[1..], all[1..]);
    }
  }

  // Any beginning of a text, whatever the text is, yields nothing or the code of the whole text.
  lemma BeginningExtractsNothingElse(seen: string, text: string)
    requires seen <= text
    ensures ExtractCode(seen) in {"", ExtractCode(text)}
  {
    assert text == seen + text[|seen|..];
    SplitGrows(seen, text[|seen|..]);
    FirstCodeOfPrefix(CompleteLines(seen), CompleteLines(text));
  }

  datatype Verdict = Healthy | Unhealthy | Probe

  // An extracted code decides; without one the processes are probed.
  function VerdictOf(exitCode: string): Verdict
    requires Digits(exitCode)
  {
    if exitCode == "" then Probe else if ValueOf(exitCode) == 0 then Healthy else Unhealthy
  }

  lemma {:induction false} ValueIsZeroIff(s: string)
    requires Digits(s)
    ensures ValueOf(s) == 0 <==> forall i :: 0 <= i < |s| ==> s[i] == '0'
  {
    if s != "" {
      ValueIsZeroIff(s[..|s| - 1]);
    }
  }

  // Nothing extracted goes on to probing; of the codes exactly the zeros are healthy.
  lemma VerdictMeaning(exitCode: string)
    requires Digits(exitCode)
    ensures VerdictOf(exitCode) == Probe <==> exitCode == ""
    ensures VerdictOf(exitCode) == Healthy <==>
      exitCode != "" && forall i :: 0 <= i < |exitCode| ==> exitCode[i] == '0'
  {
    ValueIsZeroIff(exitCode);
  }

  lemma VerdictOfDecimal(code: nat)
    ensures VerdictOf(Decimal(code)) == if code == 0 then Healthy else Unhealthy
  {
    ValueOfDecimal(code);
  }

  // Any beginning of the record yields nothing; the whole record yields exactly the code.
  lemma NeverPartial(code: nat, seen: string)
    requires seen <= Record(code)
    ensures ExtractCode(seen) == if seen == Record(code) then Decimal(code) else ""
  {
    var line := ECHOED + Decimal(code);
    assert '\n' !in line;
    if seen == Record(code) {
      assert seen == line + ['\n'] + "";
      SplitAcross(line, "", '\n');
      SplitWithoutSeparator(line, '\n');
      SplitWithoutSeparator("", '\n');
      assert CompleteLines(seen) == [line];
      assert CodeOf(line) == Decimal(code);
    } else {
      assert seen == line[..|seen|];
      SplitWithoutSeparator(seen, '\n');
      assert CompleteLines(seen) == [];
    }
  }
}
