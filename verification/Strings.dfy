// The few string operations of Go's strings package that the modelled code relies on,
// with the laws about splitting on a separator that the parser/printer proofs share.
module Strings {
  datatype Option<+T> = None | Some(value: T)

  predicate HasPrefix(s: string, prefix: string) {
    prefix <= s
  }

  predicate Contains(s: string, sub: string) {
    sub <= s || (s != "" && Contains(s[1..], sub))
  }

  lemma {:induction false} ContainsNeedsItsCharacters(s: string, sub: string, c: char)
    requires c in sub && c !in s
    ensures !Contains(s, sub)
  {
    if s != "" {
      ContainsNeedsItsCharacters(s[1..], sub, c);
    }
  }

  lemma {:induction false} ContainsAt(s: string, sub: string, i: nat)
    requires i + |sub| <= |s| && s[i..i + |sub|] == sub
    ensures Contains(s, sub)
  {
    if i == 0 {
      assert sub <= s;
    } else {
      ContainsAt(s[1..], sub, i - 1);
    }
  }

  // strings.Split(s, sep) for a one-character separator: never empty, "" gives [""].
  function Split(s: string, sep: char): (parts: seq<string>)
    ensures |parts| > 0
  {
    if s == "" then [""]
    else
      Prepend(s[0], Split(s[1..], sep), sep)
  }

  function Join(parts: seq<string>, sep: char): string
    requires |parts| > 0
  {
    if |parts| == 1 then parts[0] else parts[0] + [sep] + Join(parts[1..], sep)
  }

  lemma {:induction false} JoinOfSplit(s: string, sep: char)
    ensures Join(Split(s, sep), sep) == s
  {
    if s == "" {
    } else {
      JoinOfSplit(s[1..], sep);
      var rest := Split(s[1..], sep);
      if s[0] == sep {
        assert ([""] + rest)[1..] == rest;
      } else if |rest| > 1 {
        var parts := [[s[0]] + rest[0]] + rest[1..];
        assert parts[1..] == rest[1..];
        assert Join(parts, sep) == [s[0]] + Join(rest, sep);
      }
    }
  }

  // Prepending one character to a split string.
  function Prepend(c: char, parts: seq<string>, sep: char): seq<string>
    requires |parts| > 0
  {
    if c == sep then [""] + parts else [[c] + parts[0]] + parts[1..]
  }

  lemma PrependAcross(c: char, p: seq<string>, q: seq<string>, sep: char)
    requires |p| > 0
    ensures Prepend(c, p + q, sep) == Prepend(c, p, sep) + q
  {
    assert (p + q)[1..] == p[1..] + q;
  }

  // Splitting distributes over a separator written between two strings.
  lemma {:induction false} SplitAcross(a: string, b: string, sep: char)
    ensures Split(a + [sep] + b, sep) == Split(a, sep) + Split(b, sep)
  {
    var whole := a + [sep] + b;
    if a == "" {
      assert whole[0] == sep && whole[1..] == b;
    } else {
      SplitAcross(a[1..], b, sep);
      assert whole[0] == a[0] && whole[1..] == a[1..] + [sep] + b;
      PrependAcross(a[0], Split(a[1..], sep), Split(b, sep), sep);
    }
  }

  lemma {:induction false} SplitWithoutSeparator(s: string, sep: char)
    requires sep !in s
    ensures Split(s, sep) == [s]
  {
    if s != "" {
      SplitWithoutSeparator(s[1..], sep);
      assert [s[0]] + s[1..] == s;
    }
  }

  lemma {:induction false} JoinAcross(p: seq<string>, q: seq<string>, sep: char)
    requires |p| > 0 && |q| > 0
    ensures Join(p + q, sep) == Join(p, sep) + [sep] + Join(q, sep)
  {
    if |p| == 1 {
      assert (p + q)[1..] == q;
    } else {
      JoinAcross(p[1..], q, sep);
      assert (p + q)[1..] == p[1..] + q;
    }
  }

  // Text appended without a separator extends the last part.
  lemma {:induction false} SplitAppend(s: string, x: string, sep: char)
    requires sep !in x
    ensures var parts := Split(s, sep); var n := |parts| - 1;
      Split(s + x, sep) == parts[..n] + [parts[n] + x]
  {
    if s == "" {
      SplitWithoutSeparator(x, sep);
      assert s + x == x && "" + x == x;
    } else {
      SplitAppend(s[1..], x, sep);
      assert (s + x)[0] == s[0] && (s + x)[1..] == s[1..] + x;
      AppendThenPrepend(s[0], Split(s[1..], sep), x, sep);
    }
  }

  lemma AppendThenPrepend(c: char, parts: seq<string>, x: string, sep: char)
    requires |parts| > 0
    ensures var n := |parts| - 1;
      var all := Prepend(c, parts, sep);
      Prepend(c, parts[..n] + [parts[n] + x], sep) == all[..|all| - 1] + [all[|all| - 1] + x]
  {
    var n := |parts| - 1;
    if c != sep && n == 0 {
      assert [c] + parts[0] + x == [c] + (parts[0] + x);
    }
  }

  // Splitting is injective: a string is determined by its parts.
  lemma SplitInjective(a: string, b: string, sep: char)
    requires Split(a, sep) == Split(b, sep)
    ensures a == b
  {
    JoinOfSplit(a, sep);
    JoinOfSplit(b, sep);
  }

  // unicode.IsSpace: the characters strings.TrimSpace cuts from both ends.
  predicate IsSpace(c: char) {
    c in "\t\n\r \U{000B}\U{000C}\U{0085}\U{00A0}\U{1680}\U{2028}\U{2029}\U{202F}\U{205F}\U{3000}"
    || '\U{2000}' <= c <= '\U{200A}'
  }

  function TrimLeft(s: string): (r: string) {
    if s != "" && IsSpace(s[0]) then TrimLeft(s[1..]) else s
  }

  function TrimRight(s: string): (r: string) {
    if s != "" && IsSpace(s[|s| - 1]) then TrimRight(s[..|s| - 1]) else s
  }

  // strings.TrimSpace
  function TrimSpace(s: string): (r: string) {
    TrimRight(TrimLeft(s))
  }

  predicate Trimmed(s: string) {
    s == "" || (!IsSpace(s[0]) && !IsSpace(s[|s| - 1]))
  }

  // Trimming stops at a character that is not blank.
  lemma {:induction false} TrimLeftKeepsTail(a: string, t: string)
    requires t != "" && !IsSpace(t[0])
    ensures exists i :: 0 <= i <= |a| && TrimLeft(a + t) == a[i..] + t
  {
    if a != "" && IsSpace(a[0]) {
      TrimLeftKeepsTail(a[1..], t);
      var i :| 0 <= i <= |a[1..]| && TrimLeft(a[1..] + t) == a[1..][i..] + t;
      assert (a + t)[1..] == a[1..] + t;
      assert a[1..][i..] == a[i + 1..];
    } else {
      assert a != "" ==> (a + t)[0] == a[0];
      assert a == "" ==> a + t == t;
      assert a[0..] == a;
    }
  }

  lemma TrimSpaceKeepsTail(a: string, t: string)
    requires t != "" && !IsSpace(t[0]) && !IsSpace(t[|t| - 1])
    ensures |TrimSpace(a + t)| >= |t|
  {
    TrimLeftKeepsTail(a, t);
    var i :| 0 <= i <= |a| && TrimLeft(a + t) == a[i..] + t;
    var r := a[i..] + t;
    assert r[|r| - 1] == t[|t| - 1];
  }

  lemma TrimSpaceKeepsTrimmed(s: string)
    requires Trimmed(s)
    ensures TrimSpace(s) == s
  {
  }
}
