// lastExitCode (hack/remotevm/main.go:390-398) against the log that the test script writes:
// the test output followed by an EXITCODE line (hack/remotevm/main.go:361-366).
module ExitCodeLog {
  import opened Strings

  // What lastExitCode looks for, and what the script echoes before the code.
  const MARK := "EXITCODE="
  const ECHOED := "EXITCODE="

  // strings.TrimRight(s, "\n")
  function TrimNewlines(s: string): string {
    if s != "" && s[|s| - 1] == '\n' then TrimNewlines(s[..|s| - 1]) else s
  }

  function LinesOf(log: string): seq<string> {
    Split(TrimNewlines(log), '\n')
  }

  // The value in the last marked line.
  function LastIn(lines: seq<string>): string {
    if lines == [] then "unknown"
    else
      var n := |lines| - 1;
      if HasPrefix(lines[n], MARK) then TrimSpace(lines[n][|MARK|..]) else LastIn(lines[..n])
  }

  method LastExitCode(log: string) returns (exitCode: string)
    ensures exitCode == LastIn(LinesOf(log))
  {
    var lines := LinesOf(log);
    var i := |lines| - 1;
    assert lines[..|lines|] == lines;
    while i >= 0
      invariant -1 <= i < |lines|
      invariant LastIn(lines[..i + 1]) == LastIn(lines)
    {
      assert lines[..i + 1][..i] == lines[..i];
      if HasPrefix(lines[i], MARK) {
        return TrimSpace(lines[i][|MARK|..]);
      }
      i := i - 1;
    }
    exitCode := "unknown";
  }

  lemma {:induction false} UnmarkedIsUnknown(lines: seq<string>)
    requires forall i :: 0 <= i < |lines| ==> !HasPrefix(lines[i], MARK)
    ensures LastIn(lines) == "unknown"
  {
    if lines != [] {
      UnmarkedIsUnknown(lines[..|lines| - 1]);
    }
  }

  // What the script appends after the test output: echo "EXITCODE=$?".
  function Record(code: string): string {
    ECHOED + code + "\n"
  }

  // No newline and no outer blanks, as in any printed exit status.
  predicate CodeText(code: string) {
    '\n' !in code && Trimmed(code)
  }

  predicate Terminated(body: string) {
    body == "" || body[|body| - 1] == '\n'
  }

  // The log without its last newline ends in the record's line, so nothing more is trimmed.
  lemma TrimsOneNewline(body: string, code: string)
    requires CodeText(code)
    ensures TrimNewlines(body + Record(code)) == body + (MARK + code)
  {
    var text := body + (MARK + code);
    assert (body + Record(code))[..|text|] == text;
    assert text[|text| - 1] == (MARK + code)[|MARK + code| - 1];
  }

  // The lines of the log: those of the output, with the record glued to the last one.
  lemma LinesOfLog(body: string, code: string)
    requires CodeText(code)
    ensures var lines := Split(body, '\n'); var n := |lines| - 1;
      LinesOf(body + Record(code)) == lines[..n] + [lines[n] + (MARK + code)]
  {
    TrimsOneNewline(body, code);
    SplitAppend(body, MARK + code, '\n');
  }

  lemma {:induction false} LastPartEmptyIffTerminated(body: string)
    ensures var lines := Split(body, '\n'); lines[|lines| - 1] == "" <==> Terminated(body)
  {
    if body != "" {
      LastPartEmptyIffTerminated(body[1..]);
      if |body| > 1 {
        assert body[1..][|body| - 2] == body[|body| - 1];
      }
    }
  }

  // Glued to an unterminated line, the mark is only found if that line had it already.
  lemma GluedMark(last: string, code: string)
    requires last != ""
    ensures HasPrefix(last + (MARK + code), MARK) <==> HasPrefix(last, MARK)
  {
    var glued := last + (MARK + code);
    assert glued[|last|] == 'E' && glued[|last| + 1] == 'X';
    if |last| >= |MARK| {
      assert glued[..|MARK|] == last[..|MARK|];
    }
  }

  // A marked line with the record glued to it never yields the record's code.
  lemma GluedToMarked(last: string, code: string)
    requires HasPrefix(last, MARK) && CodeText(code)
    ensures TrimSpace((last + (MARK + code))[|MARK|..]) != code
  {
    var rest, tail := last[|MARK|..], MARK + code;
    assert (last + tail)[|MARK|..] == rest + tail;
    assert tail[|tail| - 1] == if code == "" then '=' else code[|code| - 1];
    TrimSpaceKeepsTail(rest, tail);
  }

  // Round trip, even if the output contains marked lines of its own.
  lemma RecordIsReadBack(body: string, code: string)
    requires CodeText(code) && Terminated(body)
    ensures LastIn(LinesOf(body + Record(code))) == code
  {
    LinesOfLog(body, code);
    LastPartEmptyIffTerminated(body);
    var lines := LinesOf(body + Record(code));
    assert "" + (MARK + code) == MARK + code;
    assert lines[|lines| - 1] == MARK + code;
    assert (MARK + code)[|MARK|..] == code;
    TrimSpaceKeepsTrimmed(code);
  }

  // Exactly when is the exit code of the test command read back? For output that does not end
  // in a newline the record is not seen, and an older mark in the output decides.
  lemma ReadBackIff(body: string, code: string)
    requires CodeText(code)
    ensures var lines := Split(body, '\n'); var n := |lines| - 1;
      LastIn(LinesOf(body + Record(code))) == code <==>
        Terminated(body) || (!HasPrefix(lines[n], MARK) && LastIn(lines[..n]) == code)
  {
    if Terminated(body) {
      RecordIsReadBack(body, code);
    } else {
      var lines := Split(body, '\n');
      var n := |lines| - 1;
      var glued := lines[n] + (MARK + code);
      LinesOfLog(body, code);
      LastPartEmptyIffTerminated(body);
      GluedMark(lines[n], code);
      var all := lines[..n] + [glued];
      assert all[..n] == lines[..n] && all[n] == glued;
      if HasPrefix(lines[n], MARK) {
        GluedToMarked(lines[n], code);
      }
    }
  }

  // So a failing run can pass: if the output has an old mark and ends in an unmarked line
  // without a newline, the old mark is reported whatever the command's own code was.
  lemma OldMarkWins(old_: string, last: string, code: string)
    requires CodeText(old_) && CodeText(code)
    requires last != "" && '\n' !in last && !HasPrefix(last, MARK)
    ensures LastIn(LinesOf(Record(old_) + last + Record(code))) == old_
  {
    var first := MARK + old_;
    var body := Record(old_) + last;
    assert body == first + ['\n'] + last;
    SplitAcross(first, last, '\n');
    SplitWithoutSeparator(first, '\n');
    SplitWithoutSeparator(last, '\n');
    assert Split(body, '\n') == [first, last];
    LinesOfLog(body, code);
    GluedMark(last, code);
    var lines := [first, last + (MARK + code)];
    assert LinesOf(body + Record(code)) == lines;
    assert lines[..1] == [first];
    assert first[|MARK|..] == old_;
    TrimSpaceKeepsTrimmed(old_);
  }
}
