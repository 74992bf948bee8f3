// overlayMountOptions and validateOverlayPathArg (init-container.go:43-65), against a parser
// that splits mount options on commas and each option on its first equals sign.
module OverlayOptions {
  import opened Strings

  datatype Result<+T, +E> = Ok(value: T) | Err(error: E)
  datatype Key = Lower | Upper | Work
  datatype Problem = Unsupported(key: Key) | Blank(key: Key)
  datatype Dirs = Dirs(lower: string, upper: string, work: string)

  predicate Forbidden(c: char) {
    c == ',' || c == '\n' || c == '\r' || c == '\0'
  }

  // strings.ContainsAny(value, ",\n\r\x00")
  predicate HasForbidden(value: string) {
    exists i :: 0 <= i < |value| && Forbidden(value[i])
  }

  // validateOverlayPathArg; None means valid.
  function ValidateOverlayPathArg(key: Key, value: string): Option<Problem> {
    if HasForbidden(value) then Some(Unsupported(key))
    else if TrimSpace(value) == "" then Some(Blank(key))
    else None
  }

  function ValueOf(d: Dirs, key: Key): string {
    match key
    case Lower => d.lower
    case Upper => d.upper
    case Work => d.work
  }

  // The range over the map: order is whatever order Go picks.
  function FirstProblem(d: Dirs, order: seq<Key>): Option<Problem> {
    if order == [] then None
    else
      var p := ValidateOverlayPathArg(order[0], ValueOf(d, order[0]));
      if p.Some? then p else FirstProblem(d, order[1..])
  }

  function OverlayMountOptions(d: Dirs, order: seq<Key>): Result<string, Problem> {
    var p := FirstProblem(d, order);
    if p.Some? then Err(p.value)
    else Ok(Printed(d))
  }

  function Printed(d: Dirs): string {
    "lowerdir=" + d.lower + ",upperdir=" + d.upper + ",workdir=" + d.work
  }

  // An iteration order visits every key.
  predicate IsOrder(order: seq<Key>) {
    Lower in order && Upper in order && Work in order
  }

  // No comma, line break or null character, and something besides blanks.
  predicate Acceptable(value: string) {
    && ',' !in value && '\n' !in value && '\r' !in value && '\0' !in value
    && exists i :: 0 <= i < |value| && !IsSpace(value[i])
  }

  lemma {:induction false} TrimLeftEmptyIffBlank(s: string)
    ensures TrimLeft(s) == "" <==> forall i :: 0 <= i < |s| ==> IsSpace(s[i])
  {
    if s != "" {
      TrimLeftEmptyIffBlank(s[1..]);
      assert forall i :: 0 < i < |s| ==> s[i] == s[1..][i - 1];
    }
  }

  lemma {:induction false} TrimRightEmptyIffBlank(s: string)
    ensures TrimRight(s) == "" <==> forall i :: 0 <= i < |s| ==> IsSpace(s[i])
  {
    if s != "" {
      TrimRightEmptyIffBlank(s[..|s| - 1]);
    }
  }

  lemma {:induction false} TrimLeftIsSuffix(s: string)
    ensures |TrimLeft(s)| <= |s| && TrimLeft(s) == s[|s| - |TrimLeft(s)|..]
    ensures TrimLeft(s) != "" ==> !IsSpace(TrimLeft(s)[0])
  {
    if s != "" && IsSpace(s[0]) {
      TrimLeftIsSuffix(s[1..]);
    }
  }

  lemma ValidIffAcceptable(key: Key, value: string)
    ensures ValidateOverlayPathArg(key, value).None? <==> Acceptable(value)
  {
    TrimLeftEmptyIffBlank(value);
    TrimLeftIsSuffix(value);
    TrimRightEmptyIffBlank(TrimLeft(value));
  }

  lemma {:induction false} NoProblemIffAllAcceptable(d: Dirs, order: seq<Key>)
    ensures FirstProblem(d, order).None? <==> forall i :: 0 <= i < |order| ==> Acceptable(ValueOf(d, order[i]))
  {
    if order != [] {
      ValidIffAcceptable(order[0], ValueOf(d, order[0]));
      NoProblemIffAllAcceptable(d, order[1..]);
      assert forall i :: 0 < i < |order| ==> order[i] == order[1..][i - 1];
    }
  }

  // Acceptance and the result do not depend on the order in which the map is visited.
  lemma OrderOnlyPicksTheError(d: Dirs, order: seq<Key>, other: seq<Key>)
    requires IsOrder(order) && IsOrder(other)
    ensures OverlayMountOptions(d, order).Ok? <==> Acceptable(d.lower) && Acceptable(d.upper) && Acceptable(d.work)
    ensures OverlayMountOptions(d, order).Ok? ==> OverlayMountOptions(d, order) == OverlayMountOptions(d, other)
  {
    NoProblemIffAllAcceptable(d, order);
    NoProblemIffAllAcceptable(d, other);
    AllInOrder(d, order);
    AllInOrder(d, other);
  }

  lemma AllInOrder(d: Dirs, order: seq<Key>)
    requires IsOrder(order)
    ensures (forall i :: 0 <= i < |order| ==> Acceptable(ValueOf(d, order[i])))
      <==> Acceptable(d.lower) && Acceptable(d.upper) && Acceptable(d.work)
  {
    if forall i :: 0 <= i < |order| ==> Acceptable(ValueOf(d, order[i])) {
      var l :| 0 <= l < |order| && order[l] == Lower;
      var u :| 0 <= u < |order| && order[u] == Upper;
      var w :| 0 <= w < |order| && order[w] == Work;
      assert Acceptable(ValueOf(d, order[l])) && Acceptable(ValueOf(d, order[u])) && Acceptable(ValueOf(d, order[w]));
    }
  }

  // The parser of the mount helper: key and value around the first equals sign.
  function CutAtEquals(option: string): (string, string) {
    if option == "" then ("", "")
    else if option[0] == '=' then ("", option[1..])
    else
      var (key, value) := CutAtEquals(option[1..]);
      ([option[0]] + key, value)
  }

  function ParseOptions(options: string): seq<(string, string)> {
    var parts := Split(options, ',');
    seq(|parts|, i requires 0 <= i < |parts| => CutAtEquals(parts[i]))
  }

  lemma {:induction false} CutBack(key: string, value: string)
    requires '=' !in key
    ensures CutAtEquals(key + ['='] + value) == (key, value)
  {
    var option := key + ['='] + value;
    if key == "" {
      assert option[1..] == value;
    } else {
      CutBack(key[1..], value);
      assert option[0] == key[0] && option[1..] == key[1..] + ['='] + value;
      assert [key[0]] + key[1..] == key;
    }
  }

  lemma SplitThree(a: string, b: string, c: string)
    requires ',' !in a && ',' !in b && ',' !in c
    ensures Split(a + [','] + (b + [','] + c), ',') == [a, b, c]
  {
    SplitAcross(a, b + [','] + c, ',');
    SplitAcross(b, c, ',');
    SplitWithoutSeparator(a, ',');
    SplitWithoutSeparator(b, ',');
    SplitWithoutSeparator(c, ',');
  }

  // One printed option parses back, and contains no comma.
  lemma OptionParsesBack(name: string, value: string)
    requires '=' !in name && ',' !in name && !HasForbidden(value)
    ensures ',' !in name + ['='] + value
    ensures CutAtEquals(name + ['='] + value) == (name, value)
  {
    CutBack(name, value);
    assert forall i :: 0 <= i < |value| ==> !Forbidden(value[i]);
  }

  lemma ThreeOptionsParseBack(p: string, q: string, r: string, d: Dirs)
    requires '=' !in p && ',' !in p && '=' !in q && ',' !in q && '=' !in r && ',' !in r
    requires !HasForbidden(d.lower) && !HasForbidden(d.upper) && !HasForbidden(d.work)
    ensures ParseOptions(p + ['='] + d.lower + [','] + (q + ['='] + d.upper + [','] + (r + ['='] + d.work)))
         == [(p, d.lower), (q, d.upper), (r, d.work)]
  {
    OptionParsesBack(p, d.lower);
    OptionParsesBack(q, d.upper);
    OptionParsesBack(r, d.work);
    SplitThree(p + ['='] + d.lower, q + ['='] + d.upper, r + ['='] + d.work);
  }

  // Round trip: the options that come out name exactly the three directories that went in.
  lemma OptionsParseBack(d: Dirs, order: seq<Key>)
    requires IsOrder(order) && OverlayMountOptions(d, order).Ok?
    ensures ParseOptions(OverlayMountOptions(d, order).value)
         == [("lowerdir", d.lower), ("upperdir", d.upper), ("workdir", d.work)]
  {
    OrderOnlyPicksTheError(d, order, order);
    ThreeOptionsParseBack("lowerdir", "upperdir", "workdir", d);
    PrintedShape(d);
  }

  lemma PrintedShape(d: Dirs)
    ensures Printed(d)
         == "lowerdir" + ['='] + d.lower + [','] + ("upperdir" + ['='] + d.upper + [','] + ("workdir" + ['='] + d.work))
  {
    assert "lowerdir=" == "lowerdir" + ['='];
    assert ",upperdir=" == [','] + "upperdir" + ['='];
    assert ",workdir=" == [','] + "workdir" + ['='];
    Regroup("lowerdir" + ['='], d.lower, "upperdir" + ['='], d.upper, "workdir" + ['='], d.work);
  }

  lemma Regroup(a: string, x: string, b: string, y: string, c: string, z: string)
    ensures a + x + ([','] + b) + y + ([','] + c) + z == a + x + [','] + (b + y + [','] + (c + z))
  {
  }

  lemma OptionsAreInjective(d: Dirs, e: Dirs, order: seq<Key>)
    requires IsOrder(order) && OverlayMountOptions(d, order).Ok?
    requires OverlayMountOptions(d, order) == OverlayMountOptions(e, order)
    ensures d == e
  {
    OptionsParseBack(d, order);
    OptionsParseBack(e, order);
    var p, q := ParseOptions(OverlayMountOptions(d, order).value), ParseOptions(OverlayMountOptions(e, order).value);
    assert p[0] == q[0] && p[1] == q[1] && p[2] == q[2];
  }
}
