/** The pieces of Python's `str` behaviour the modelled code relies on:
    `pat in s`, `s.split(sep)`, `sep.join(parts)`, `s.strip()`, `s.endswith(x)`,
    `str(n)` for integers, `int(s)` in base 10, and the `{n:09d}` format. */
module PyStr {
  import opened Outcomes

  /** `pat` occurs in `s` starting at position `j`. */
  predicate OccursAt(s: string, pat: string, j: int) {
    0 <= j && j + |pat| <= |s| && s[j..j + |pat|] == pat
  }

  /** The first occurrence of `pat` in `s` at or after `from` (`str.find`). */
  function FindFrom(s: string, pat: string, from: nat): (r: Option<nat>)
    ensures r.Some? ==> from <= r.value && OccursAt(s, pat, r.value)
    ensures r.Some? ==> forall j :: from <= j < r.value ==> !OccursAt(s, pat, j)
    ensures r.None? ==> forall j :: from <= j ==> !OccursAt(s, pat, j)
    decreases |s| - from
  {
    if from + |pat| > |s| then None
    else if s[from..from + |pat|] == pat then Some(from)
    else
      assert |pat| > 0;
      FindFrom(s, pat, from + 1)
  }

  function Find(s: string, pat: string): Option<nat> {
    FindFrom(s, pat, 0)
  }

  /** Python's `pat in s`. */
  predicate Contains(s: string, pat: string) {
    Find(s, pat).Some?
  }

  lemma NotContains(s: string, pat: string, j: int)
    requires !Contains(s, pat)
    ensures !OccursAt(s, pat, j)
  {
  }

  lemma OccursInPrefix(s: string, pat: string, i: nat, j: int)
    requires i <= |s|
    requires OccursAt(s[..i], pat, j)
    ensures OccursAt(s, pat, j) && j + |pat| <= i
  {
    assert s[..i][j..j + |pat|] == s[j..j + |pat|];
  }

  /** A string without the character `c` does not contain `[c]`. */
  lemma CharFree(s: string, c: char)
    requires forall i :: 0 <= i < |s| ==> s[i] != c
    ensures !Contains(s, [c])
  {
    forall j | 0 <= j && j + 1 <= |s|
      ensures !OccursAt(s, [c], j)
    {
      assert s[j..j + 1][0] == s[j];
    }
  }

  /** `sep.join(parts)`. */
  function Join(parts: seq<string>, sep: string): string
    decreases |parts|
  {
    if |parts| == 0 then ""
    else if |parts| == 1 then parts[0]
    else parts[0] + sep + Join(parts[1..], sep)
  }

  /** `s.split(sep)` for a non-empty separator: cut at every occurrence,
      scanning left to right. Joining the pieces gives back `s`, and no
      piece contains the separator. */
  function Split(s: string, sep: string): (parts: seq<string>)
    requires |sep| > 0
    ensures |parts| >= 1
    ensures forall k :: 0 <= k < |parts| ==> !Contains(parts[k], sep)
    ensures Join(parts, sep) == s
    decreases |s|
  {
    match Find(s, sep)
    case None => [s]
    case Some(i) =>
      var head := s[..i];
      assert !Contains(head, sep) by {
        if Contains(head, sep) {
          OccursInPrefix(s, sep, i, Find(head, sep).value);
        }
      }
      var rest := Split(s[i + |sep|..], sep);
      assert s == head + sep + s[i + |sep|..];
      [head] + rest
  }

  /** `s.split(sep)[0]`: everything before the first separator. */
  lemma SplitHead(s: string, sep: string)
    requires |sep| > 0
    ensures Find(s, sep).None? ==> Split(s, sep)[0] == s
    ensures Find(s, sep).Some? ==> Split(s, sep)[0] == s[..Find(s, sep).value]
  {
  }

  lemma FindAfterPiece(p: string, sep: string, rest: string)
    requires |sep| == 1
    requires !Contains(p, sep)
    ensures Find(p + sep + rest, sep) == Some(|p|)
  {
    var s := p + sep + rest;
    assert OccursAt(s, sep, |p|) by {
      assert s[|p|..|p| + 1] == sep;
    }
    forall j | 0 <= j < |p|
      ensures !OccursAt(s, sep, j)
    {
      NotContains(p, sep, j);
    }
  }

  /** Splitting on a one-character separator undoes joining, provided no
      piece contains the separator. */
  lemma {:induction false} SplitJoin(parts: seq<string>, sep: string)
    requires |sep| == 1 && |parts| >= 1
    requires forall k :: 0 <= k < |parts| ==> !Contains(parts[k], sep)
    ensures Split(Join(parts, sep), sep) == parts
    decreases |parts|
  {
    if |parts| == 1 {
    } else {
      var tail := Join(parts[1..], sep);
      FindAfterPiece(parts[0], sep, tail);
      var s := parts[0] + sep + tail;
      assert s[..|parts[0]|] == parts[0];
      assert s[|parts[0]| + 1..] == tail;
      SplitJoin(parts[1..], sep);
      assert Split(s, sep) == [parts[0]] + parts[1..];
    }
  }

  /** `s.endswith(suffix)`. */
  predicate EndsWith(s: string, suffix: string) {
    |suffix| <= |s| && s[|s| - |suffix|..] == suffix
  }

  /** Python's `str.isspace()` on one character. */
  predicate IsSpace(c: char) {
    || ('\t' <= c <= '\r')
    || ('\U{1C}' <= c <= ' ')
    || c == '\U{85}' || c == '\U{A0}' || c == '\U{1680}'
    || ('\U{2000}' <= c <= '\U{200A}')
    || c == '\U{2028}' || c == '\U{2029}' || c == '\U{202F}' || c == '\U{205F}' || c == '\U{3000}'
  }

  /** The whitespace `int()` skips around a literal: that of
      `str.isspace()` except the four separators U+001C to U+001F, which
      `int()` rejects. */
  predicate IntSpace(c: char) {
    IsSpace(c) && !('\U{1C}' <= c <= '\U{1F}')
  }

  /** The number of whitespace characters (in the sense of `ws`) that
      `s` starts with. */
  function Leading(ws: char -> bool, s: string): (n: nat)
    ensures n <= |s|
    ensures forall j :: 0 <= j < n ==> ws(s[j])
    ensures n < |s| ==> !ws(s[n])
    decreases |s|
  {
    if |s| > 0 && ws(s[0]) then
      var n := Leading(ws, s[1..]);
      assert forall j :: 1 <= j < n + 1 ==> s[j] == s[1..][j - 1];
      1 + n
    else 0
  }

  /** `s` without its trailing whitespace (in the sense of `ws`). */
  function TrimRight(ws: char -> bool, s: string): (t: string)
    ensures |t| <= |s| && t == s[..|t|]
    ensures forall j :: |t| <= j < |s| ==> ws(s[j])
    ensures |t| > 0 ==> !ws(t[|t| - 1])
    decreases |s|
  {
    if |s| > 0 && ws(s[|s| - 1]) then TrimRight(ws, s[..|s| - 1]) else s
  }

  /** `s` without its leading and trailing whitespace (in the sense of
      `ws`): the piece of `s` that starts after the leading whitespace and
      leaves only whitespace behind it, and ends in a character that is not
      whitespace. Together with the contract of `Leading` this fixes the
      result. */
  function Trim(ws: char -> bool, s: string): (t: string)
    ensures Leading(ws, s) + |t| <= |s|
    ensures t == s[Leading(ws, s)..Leading(ws, s) + |t|]
    ensures forall j :: Leading(ws, s) + |t| <= j < |s| ==> ws(s[j])
    ensures |t| > 0 ==> !ws(t[0]) && !ws(t[|t| - 1])
  {
    var lo := Leading(ws, s);
    var t := TrimRight(ws, s[lo..]);
    assert forall j :: lo + |t| <= j < |s| ==> s[j] == s[lo..][j - lo];
    t
  }

  /** Nothing is trimmed from a string that neither starts nor ends in
      whitespace. */
  lemma TrimClean(ws: char -> bool, s: string)
    requires |s| > 0 && !ws(s[0]) && !ws(s[|s| - 1])
    ensures Trim(ws, s) == s
  {
    assert Leading(ws, s) == 0;
  }

  /** `s.strip()`: drop leading and trailing whitespace. */
  function Strip(s: string): (t: string)
    ensures Leading(IsSpace, s) + |t| <= |s|
    ensures t == s[Leading(IsSpace, s)..Leading(IsSpace, s) + |t|]
    ensures forall j :: Leading(IsSpace, s) + |t| <= j < |s| ==> IsSpace(s[j])
    ensures |t| > 0 ==> !IsSpace(t[0]) && !IsSpace(t[|t| - 1])
  {
    Trim(IsSpace, s)
  }

  predicate IsDigit(c: char) {
    '0' <= c <= '9'
  }

  predicate AllDigits(s: string) {
    forall k :: 0 <= k < |s| ==> IsDigit(s[k])
  }

  function DigitChar(d: nat): (c: char)
    requires d < 10
    ensures IsDigit(c)
  {
    ('0' as int + d) as char
  }

  function DigitValue(c: char): nat
    requires IsDigit(c)
  {
    c as int - '0' as int
  }

  /** Decimal value of a string of digits (leading zeros allowed). */
  function DigitsValue(s: string): nat
    requires AllDigits(s)
    decreases |s|
  {
    if |s| == 0 then 0 else DigitsValue(s[..|s| - 1]) * 10 + DigitValue(s[|s| - 1])
  }

  function NatToString(n: nat): (s: string)
    ensures |s| >= 1 && AllDigits(s)
    decreases n
  {
    if n < 10 then [DigitChar(n)] else NatToString(n / 10) + [DigitChar(n % 10)]
  }

  /** `str(n)` for an integer. */
  function IntToString(n: int): (s: string)
    ensures |s| >= 1
  {
    if n < 0 then "-" + NatToString(-n) else NatToString(n)
  }

  lemma {:induction false} NatToStringValue(n: nat)
    ensures DigitsValue(NatToString(n)) == n
    decreases n
  {
    if n >= 10 {
      var s := NatToString(n);
      NatToStringValue(n / 10);
      assert s[..|s| - 1] == NatToString(n / 10);
    }
  }

  /** Python's base-10 integer literal body: a digit, then digits, each of
      which may be preceded by a single underscore. */
  predicate DigitGroups(b: string) {
    |b| > 0 && IsDigit(b[0]) && MoreGroups(b[1..])
  }

  predicate MoreGroups(b: string)
    decreases |b|
  {
    || |b| == 0
    || (IsDigit(b[0]) && MoreGroups(b[1..]))
    || (|b| >= 2 && b[0] == '_' && IsDigit(b[1]) && MoreGroups(b[2..]))
  }

  /** The characters of `b` with every underscore removed. */
  function Digits(b: string): (d: string)
    ensures |d| <= |b|
    ensures AllDigits(b) ==> d == b
    decreases |b|
  {
    if |b| == 0 then ""
    else if b[0] == '_' then Digits(b[1..])
    else [b[0]] + Digits(b[1..])
  }

  lemma {:induction false} MoreGroupsDigits(b: string)
    requires MoreGroups(b)
    ensures AllDigits(Digits(b))
    decreases |b|
  {
    if |b| > 0 {
      if IsDigit(b[0]) && MoreGroups(b[1..]) {
        MoreGroupsDigits(b[1..]);
      } else {
        MoreGroupsDigits(b[2..]);
        assert Digits(b) == [b[1]] + Digits(b[2..]);
      }
    }
  }

  lemma {:induction false} AllDigitsGroups(b: string)
    requires AllDigits(b)
    ensures MoreGroups(b)
    decreases |b|
  {
    if |b| > 0 {
      AllDigitsGroups(b[1..]);
    }
  }

  const IntLiteralError := ValueError("invalid literal for int() with base 10")

  /** The sign-free part of a stripped literal. */
  predicate Signed(t: string) {
    |t| > 0 && (t[0] == '-' || t[0] == '+')
  }

  /** `int(s)`: surrounding whitespace, an optional sign, then digit
      groups. The literal is accepted exactly when what is left after the
      whitespace is digit groups, possibly behind one sign; its value is
      that of the digits, negated behind a minus sign. */
  function ParseInt(s: string): (r: Result<int>)
    ensures var t := Trim(IntSpace, s);
      r.Ok? <==> DigitGroups(t) || (Signed(t) && DigitGroups(t[1..]))
    ensures var t := Trim(IntSpace, s);
      r.Ok? && DigitGroups(t) ==> AllDigits(Digits(t)) && r.value == DigitsValue(Digits(t))
    ensures var t := Trim(IntSpace, s);
      r.Ok? && Signed(t) ==>
        && AllDigits(Digits(t[1..]))
        && r.value == if t[0] == '-' then -(DigitsValue(Digits(t[1..])) as int) else DigitsValue(Digits(t[1..]))
    ensures r.Err? ==> r.error == IntLiteralError
  {
    var t := Trim(IntSpace, s);
    var body := if Signed(t) then t[1..] else t;
    if DigitGroups(body) then
      MoreGroupsDigits(body);
      var v: int := DigitsValue(Digits(body));
      Ok(if Signed(t) && t[0] == '-' then -v else v)
    else
      Err(IntLiteralError)
  }

  /** Literals `int()` rejects: nothing, a word, two numbers and a bare
      sign. */
  lemma IntRejects()
    ensures ParseInt("").Err? && ParseInt("abc").Err? && ParseInt("1 2").Err? && ParseInt("-").Err?
  {
    TrimClean(IntSpace, "abc");
    TrimClean(IntSpace, "1 2");
    assert !MoreGroups(" 2");
    TrimClean(IntSpace, "-");
  }

  /** Misplaced underscores, and a number behind a separator character,
      are rejected too. */
  lemma IntRejectsUnderscores()
    ensures ParseInt("1__0").Err? && ParseInt("10_").Err? && ParseInt("\U{1C}5").Err?
  {
    TrimClean(IntSpace, "1__0");
    assert !MoreGroups("__0");
    TrimClean(IntSpace, "10_");
    assert !MoreGroups("_");
    TrimClean(IntSpace, "\U{1C}5");
  }

  lemma TrimPadded()
    ensures Trim(IntSpace, " +1_0\n") == "+1_0"
  {
    var p := " +1_0\n";
    assert Leading(IntSpace, p) == 1;
    var t := Trim(IntSpace, p);
    assert |t| == 4 by {
      assert p[4] == '0' && p[5] == '\n';
    }
  }

  /** Whitespace, a sign and single underscores are accepted. */
  lemma IntAccepts()
    ensures ParseInt(" +1_0\n") == Ok(10)
  {
    TrimPadded();
    assert "+1_0"[1..] == "1_0";
    assert MoreGroups("_0") by { assert MoreGroups(""); }
    assert Digits("1_0") == "10";
    assert DigitsValue("10") == 10 by { assert "10"[..1] == "1"; }
  }

  /** A minus sign negates, and leading zeros are accepted. */
  lemma IntAcceptsNegative()
    ensures ParseInt("-07") == Ok(-7)
  {
    TrimClean(IntSpace, "-07");
    assert "-07"[1..] == "07";
    assert MoreGroups("7") by { assert MoreGroups(""); }
    assert DigitsValue("07") == 7 by { assert "07"[..1] == "0"; }
  }

  /** `int(str(n)) == n`. */
  lemma DecimalIsLiteral(m: nat)
    ensures DigitGroups(NatToString(m))
    ensures Digits(NatToString(m)) == NatToString(m)
    ensures DigitsValue(NatToString(m)) == m
  {
    var d := NatToString(m);
    NatToStringValue(m);
    AllDigitsGroups(d[1..]);
  }

  lemma DecimalStrips(n: int)
    ensures Trim(IntSpace, IntToString(n)) == IntToString(n)
  {
    var s := IntToString(n);
    var d := if n < 0 then NatToString(-n) else NatToString(n);
    assert s[|s| - 1] == d[|d| - 1];
    TrimClean(IntSpace, s);
  }

  lemma IntRoundTrip(n: int)
    ensures ParseInt(IntToString(n)) == Ok(n)
  {
    if n < 0 {
      NegativeRoundTrip(n);
    } else {
      NaturalRoundTrip(n);
    }
  }

  lemma NaturalRoundTrip(n: nat)
    ensures ParseInt(IntToString(n)) == Ok(n)
  {
    DecimalStrips(n);
    DecimalIsLiteral(n);
    assert IntToString(n) == NatToString(n);
  }

  lemma NegativeRoundTrip(n: int)
    requires n < 0
    ensures ParseInt(IntToString(n)) == Ok(n)
  {
    var d := NatToString(-n);
    var s := IntToString(n);
    DecimalStrips(n);
    DecimalIsLiteral(-n);
    assert s == "-" + d;
    assert DigitsValue(d) == -n;
    NegativeLiteral(s, d);
  }

  /** A minus sign followed by digit groups, with nothing to strip, reads
      as the negated value of the digits. */
  lemma NegativeLiteral(s: string, d: string)
    requires s == "-" + d && Trim(IntSpace, s) == s && DigitGroups(d) && AllDigits(d)
    ensures ParseInt(s) == Ok(-(DigitsValue(d) as int))
  {
    assert s[1..] == d;
  }

  /** `[f(x) for x in xs]`, failing with the error of the first `x`
      on which `f` fails. */
  function MapAll<A, B>(f: A -> Result<B>, xs: seq<A>): (r: Result<seq<B>>)
    ensures r.Ok? ==> |r.value| == |xs|
    ensures r.Ok? ==> forall k :: 0 <= k < |xs| ==> f(xs[k]) == Ok(r.value[k])
    ensures r.Err? <==> exists k :: 0 <= k < |xs| && f(xs[k]).Err?
    decreases |xs|
  {
    if |xs| == 0 then Ok([])
    else
      var v :- f(xs[0]);
      var vs :- MapAll(f, xs[1..]);
      assert forall k :: 1 <= k < |xs| ==> xs[k] == xs[1..][k - 1];
      Ok([v] + vs)
  }

  /** Inputs on which `f` succeeds one by one map together, in order. */
  lemma MapAllOk<A, B>(f: A -> Result<B>, xs: seq<A>, ys: seq<B>)
    requires |xs| == |ys|
    requires forall k :: 0 <= k < |xs| ==> f(xs[k]) == Ok(ys[k])
    ensures MapAll(f, xs) == Ok(ys)
  {
    var r := MapAll(f, xs);
    assert r.Ok? by {
      forall k | 0 <= k < |xs|
        ensures f(xs[k]).Ok?
      {
      }
    }
    forall k | 0 <= k < |xs|
      ensures r.value[k] == ys[k]
    {
      assert f(xs[k]) == Ok(r.value[k]);
    }
    assert r.value == ys;
  }

  /** `list(map(int, xs))`, failing on the first token that is not an integer. */
  function ParseInts(xs: seq<string>): (r: Result<seq<int>>)
    ensures r.Ok? ==> |r.value| == |xs|
    ensures r.Ok? ==> forall k :: 0 <= k < |xs| ==> ParseInt(xs[k]) == Ok(r.value[k])
    ensures r.Err? <==> exists k :: 0 <= k < |xs| && ParseInt(xs[k]).Err?
  {
    MapAll(ParseInt, xs)
  }

  /** Tokens that each parse on their own parse together, in order. */
  lemma ParseIntsAll(tokens: seq<string>, values: seq<int>)
    requires |tokens| == |values|
    requires forall k :: 0 <= k < |tokens| ==> ParseInt(tokens[k]) == Ok(values[k])
    ensures ParseInts(tokens) == Ok(values)
  {
    MapAllOk(ParseInt, tokens, values);
  }

  function Zeros(n: nat): (z: string)
    ensures |z| == n && AllDigits(z) && DigitsValue(z) == 0
  {
    if n == 0 then "" else
      var z := Zeros(n - 1) + "0";
      assert z[..|z| - 1] == Zeros(n - 1);
      z
  }

  /** Leading zeros do not change a digit string's value. */
  lemma {:induction false} ZerosPrefixValue(n: nat, s: string)
    requires AllDigits(s)
    ensures AllDigits(Zeros(n) + s) && DigitsValue(Zeros(n) + s) == DigitsValue(s)
    decreases |s|
  {
    var z := Zeros(n) + s;
    if |s| > 0 {
      ZerosPrefixValue(n, s[..|s| - 1]);
      assert z[..|z| - 1] == Zeros(n) + s[..|s| - 1];
    } else {
      assert z == Zeros(n);
    }
  }

  /** `f"{n:0{width}d}"` for a non-negative `n`. */
  function ZeroPad(n: nat, width: nat): (s: string)
    ensures |s| == if |NatToString(n)| >= width then |NatToString(n)| else width
    ensures AllDigits(s) && DigitsValue(s) == n
  {
    var d := NatToString(n);
    NatToStringValue(n);
    if |d| >= width then d
    else
      ZerosPrefixValue(width - |d|, d);
      Zeros(width - |d|) + d
  }
}
