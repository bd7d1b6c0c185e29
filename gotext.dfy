/**
 * The behaviour of the few Go library routines the parser is built on:
 * `strings.Split` and `strings.Join` with a one-character separator,
 * `strings.TrimSpace`, `strconv.Atoi` and the `%d` verb of `fmt.Sprintf`.
 * Strings are sequences of Unicode code points.
 */
module GoText {
  import opened Outcomes

  /** `unicode.IsSpace`: the Latin-1 spaces and the other White_Space code points. */
  predicate IsSpace(ch: char) {
    ch == ' ' || ch == '\t' || ch == '\n' || ch == '\U{B}' || ch == '\U{C}' || ch == '\r'
    || ch == '\U{85}' || ch == '\U{A0}' || ch == '\U{1680}'
    || ('\U{2000}' <= ch <= '\U{200A}')
    || ch == '\U{2028}' || ch == '\U{2029}' || ch == '\U{202F}' || ch == '\U{205F}' || ch == '\U{3000}'
  }

  predicate AllSpace(s: string) {
    forall i | 0 <= i < |s| :: IsSpace(s[i])
  }

  predicate NoSpace(s: string) {
    forall i | 0 <= i < |s| :: !IsSpace(s[i])
  }

  // ---------------------------------------------------------------- TrimSpace

  function TrimLeft(s: string): string {
    if |s| > 0 && IsSpace(s[0]) then TrimLeft(s[1..]) else s
  }

  function TrimRight(s: string): string {
    if |s| > 0 && IsSpace(s[|s| - 1]) then TrimRight(s[..|s| - 1]) else s
  }

  /** TrimLeft drops the leading spaces and keeps the rest. */
  lemma {:induction false} TrimLeftSpec(s: string)
    ensures var r := TrimLeft(s); |r| <= |s| && r == s[|s| - |r|..]
    ensures var r := TrimLeft(s); AllSpace(s[..|s| - |r|])
    ensures var r := TrimLeft(s); r == [] || !IsSpace(r[0])
  {
    if |s| > 0 && IsSpace(s[0]) {
      TrimLeftSpec(s[1..]);
      var r := TrimLeft(s);
      assert s[..|s| - |r|] == [s[0]] + s[1..][..|s| - 1 - |r|];
    }
  }

  /** TrimRight drops the trailing spaces and keeps the rest. */
  lemma {:induction false} TrimRightSpec(s: string)
    ensures var r := TrimRight(s); |r| <= |s| && r == s[..|r|]
    ensures var r := TrimRight(s); AllSpace(s[|r|..])
    ensures var r := TrimRight(s); r == [] || !IsSpace(r[|r| - 1])
  {
    if |s| > 0 && IsSpace(s[|s| - 1]) {
      TrimRightSpec(s[..|s| - 1]);
      var r := TrimRight(s);
      assert s[|r|..] == s[..|s| - 1][|r|..] + [s[|s| - 1]];
    }
  }

  /** `strings.TrimSpace`. */
  function TrimSpace(s: string): string {
    TrimRight(TrimLeft(s))
  }

  /** TrimSpace drops every leading and trailing space, and nothing else. */
  lemma TrimSpaceSpec(s: string)
    ensures var r := TrimSpace(s);
      exists i, j :: 0 <= i <= j <= |s| && r == s[i..j] && AllSpace(s[..i]) && AllSpace(s[j..])
    ensures var r := TrimSpace(s); r == [] || (!IsSpace(r[0]) && !IsSpace(r[|r| - 1]))
  {
    var l := TrimLeft(s);
    var r := TrimRight(l);
    TrimLeftSpec(s);
    TrimRightSpec(l);
    assert r == s[|s| - |l|..|s| - |l| + |r|];
    assert s[|s| - |l| + |r|..] == l[|r|..];
  }

  lemma TrimSpaceNoSpace(s: string)
    requires NoSpace(s)
    ensures TrimSpace(s) == s
  {
  }

  lemma TrimLeftSpacesThen(w: string, p: string)
    requires AllSpace(w)
    ensures TrimLeft(w + p) == TrimLeft(p)
  {
    if w != [] {
      assert (w + p)[1..] == w[1..] + p;
      TrimLeftSpacesThen(w[1..], p);
    } else {
      assert w + p == p;
    }
  }

  lemma TrimRightThenSpaces(p: string, w: string)
    requires AllSpace(w)
    ensures TrimRight(p + w) == TrimRight(p)
  {
    if w != [] {
      assert (p + w)[..|p + w| - 1] == p + w[..|w| - 1];
      TrimRightThenSpaces(p, w[..|w| - 1]);
    } else {
      assert p + w == p;
    }
  }

  lemma TrimLeftAppend(p: string, w: string)
    ensures TrimLeft(p + w) == if TrimLeft(p) == [] then TrimLeft(w) else TrimLeft(p) + w
  {
    if p == [] {
      assert p + w == w;
    } else if IsSpace(p[0]) {
      assert (p + w)[1..] == p[1..] + w;
      TrimLeftAppend(p[1..], w);
    }
  }

  /** Trailing spaces added to a string do not change its trimmed form. */
  lemma TrimSpaceThenSpaces(p: string, w: string)
    requires AllSpace(w)
    ensures TrimSpace(p + w) == TrimSpace(p)
  {
    TrimLeftAppend(p, w);
    if TrimLeft(p) == [] {
      TrimLeftSpacesThen(w, []);
      assert w + [] == w;
    } else {
      TrimRightThenSpaces(TrimLeft(p), w);
    }
  }

  // ---------------------------------------------------------------- Split and Join

  /** `strings.Split(s, string(sep))`: the maximal separator-free pieces, left to right. */
  function Split(s: string, sep: char): (parts: seq<string>)
    ensures |parts| >= 1
    ensures |parts| == 1 <==> sep !in s
    ensures sep !in s ==> parts == [s]
    ensures forall k | 0 <= k < |parts| :: sep !in parts[k]
  {
    if s == [] then [""]
    else
      var rest := Split(s[1..], sep);
      assert sep in s <==> s[0] == sep || sep in s[1..];
      assert s == [s[0]] + s[1..];
      if s[0] == sep then [""] + rest
      else [[s[0]] + rest[0]] + rest[1..]
  }

  /** `strings.Join(parts, string(sep))`. */
  function Join(parts: seq<string>, sep: char): (s: string)
  {
    if |parts| == 0 then ""
    else if |parts| == 1 then parts[0]
    else parts[0] + [sep] + Join(parts[1..], sep)
  }

  /** A separator-free prefix glues onto the first piece. */
  lemma {:induction false} SplitPrefix(w: string, s: string, sep: char)
    requires sep !in w
    ensures Split(w + s, sep) == [w + Split(s, sep)[0]] + Split(s, sep)[1..]
  {
    if w == [] {
      assert w + s == s;
      assert w + Split(s, sep)[0] == Split(s, sep)[0];
      assert [Split(s, sep)[0]] + Split(s, sep)[1..] == Split(s, sep);
    } else {
      assert (w + s)[1..] == w[1..] + s;
      assert (w + s)[0] == w[0] != sep;
      SplitPrefix(w[1..], s, sep);
      var p, r := Split(s, sep), Split(w[1..] + s, sep);
      assert r[0] == w[1..] + p[0] && r[1..] == p[1..];
      assert Split(w + s, sep) == [[w[0]] + r[0]] + r[1..];
      assert [w[0]] + (w[1..] + p[0]) == w + p[0];
    }
  }

  /** A separator splits the text into the pieces on each side of it. */
  lemma SplitAround(a: string, b: string, sep: char)
    requires sep !in a
    ensures Split(a + [sep] + b, sep) == [a] + Split(b, sep)
  {
    SplitPrefix(a, [sep] + b, sep);
    assert a + [sep] + b == a + ([sep] + b);
    assert ([sep] + b)[1..] == b;
    assert a + "" == a;
  }

  /** A piece that holds a separator ends the first piece there. */
  lemma {:induction false} SplitConcat(a: string, b: string, sep: char)
    ensures Split(a + [sep] + b, sep) == Split(a, sep) + Split(b, sep)
  {
    if a == [] {
      assert a + [sep] + b == [sep] + b;
      assert ([sep] + b)[1..] == b;
    } else {
      assert (a + [sep] + b)[1..] == a[1..] + [sep] + b;
      SplitConcat(a[1..], b, sep);
    }
  }

  /** A separator-free suffix glues onto the last piece. */
  lemma {:induction false} SplitSuffix(s: string, w: string, sep: char)
    requires sep !in w
    ensures Split(s + w, sep) == GlueLast(Split(s, sep), w)
  {
    if s == [] {
      assert s + w == w;
      assert Split(w, sep) == [w] by { SplitPrefix(w, "", sep); assert w + "" == w; }
    } else {
      SplitSuffix(s[1..], w, sep);
      SplitSuffixCons(s, w, sep);
    }
  }

  /** Glues w onto the last piece of a split. */
  function GlueLast(p: seq<string>, w: string): seq<string>
    requires |p| >= 1
  {
    p[..|p| - 1] + [p[|p| - 1] + w]
  }

  /** One character in front of a text whose split already takes the suffix. */
  lemma SplitSuffixCons(s: string, w: string, sep: char)
    requires s != [] && sep !in w
    requires Split(s[1..] + w, sep) == GlueLast(Split(s[1..], sep), w)
    ensures Split(s + w, sep) == GlueLast(Split(s, sep), w)
  {
    if s[0] == sep {
      SplitSuffixSep(s, w, sep);
    } else if |Split(s[1..], sep)| == 1 {
      SplitSuffixSingle(s, w, sep);
    } else {
      SplitSuffixMulti(s, w, sep);
    }
  }

  lemma SplitSuffixSep(s: string, w: string, sep: char)
    requires s != [] && s[0] == sep
    requires Split(s[1..] + w, sep) == GlueLast(Split(s[1..], sep), w)
    ensures Split(s + w, sep) == GlueLast(Split(s, sep), w)
  {
    assert (s + w)[1..] == s[1..] + w;
    assert (s + w)[0] == s[0];
    var rest := Split(s[1..], sep);
    assert Split(s, sep) == [""] + rest;
    assert Split(s + w, sep) == [""] + Split(s[1..] + w, sep);
    GlueFront([""], rest, w);
  }

  lemma SplitSuffixSingle(s: string, w: string, sep: char)
    requires s != [] && s[0] != sep
    requires |Split(s[1..], sep)| == 1
    requires Split(s[1..] + w, sep) == GlueLast(Split(s[1..], sep), w)
    ensures Split(s + w, sep) == GlueLast(Split(s, sep), w)
  {
    assert (s + w)[1..] == s[1..] + w;
    assert (s + w)[0] == s[0];
    var rest := Split(s[1..], sep);
    assert Split(s, sep) == [[s[0]] + rest[0]];
    assert Split(s[1..] + w, sep) == [rest[0] + w];
    assert Split(s + w, sep) == [[s[0]] + (rest[0] + w)];
    assert [s[0]] + (rest[0] + w) == [s[0]] + rest[0] + w;
  }

  lemma SplitSuffixMulti(s: string, w: string, sep: char)
    requires s != [] && s[0] != sep
    requires |Split(s[1..], sep)| >= 2
    requires Split(s[1..] + w, sep) == GlueLast(Split(s[1..], sep), w)
    ensures Split(s + w, sep) == GlueLast(Split(s, sep), w)
  {
    assert (s + w)[1..] == s[1..] + w;
    assert (s + w)[0] == s[0];
    var rest := Split(s[1..], sep);
    var rest' := Split(s[1..] + w, sep);
    assert Split(s, sep) == [[s[0]] + rest[0]] + rest[1..];
    assert Split(s + w, sep) == [[s[0]] + rest'[0]] + rest'[1..];
    GlueTail(rest, w);
    GlueFront([[s[0]] + rest[0]], rest[1..], w);
  }

  lemma GlueTail(p: seq<string>, w: string)
    requires |p| >= 2
    ensures GlueLast(p, w)[0] == p[0] && GlueLast(p, w)[1..] == GlueLast(p[1..], w)
  {
    assert p[1..][..|p[1..]| - 1] == p[..|p| - 1][1..];
  }

  lemma GlueFront(a: seq<string>, b: seq<string>, w: string)
    requires |b| >= 1
    ensures a + GlueLast(b, w) == GlueLast(a + b, w)
  {
    assert (a + b)[..|a + b| - 1] == a + b[..|b| - 1];
  }

  /** Splitting a join of separator-free pieces gives the pieces back. */
  lemma {:induction false} SplitJoin(parts: seq<string>, sep: char)
    requires |parts| >= 1
    requires forall k | 0 <= k < |parts| :: sep !in parts[k]
    ensures Split(Join(parts, sep), sep) == parts
  {
    if |parts| == 1 {
      SplitPrefix(parts[0], "", sep);
      assert parts[0] + "" == parts[0];
    } else {
      SplitJoin(parts[1..], sep);
      SplitAround(parts[0], Join(parts[1..], sep), sep);
      assert [parts[0]] + parts[1..] == parts;
    }
  }

  lemma JoinNoSpace(parts: seq<string>, sep: char)
    requires !IsSpace(sep)
    requires forall k | 0 <= k < |parts| :: NoSpace(parts[k])
    ensures NoSpace(Join(parts, sep))
  {
    if |parts| > 1 {
      JoinNoSpace(parts[1..], sep);
    }
  }

  // ---------------------------------------------------------------- Atoi and Itoa

  const MinInt64: int := -0x8000_0000_0000_0000
  const MaxInt64: int := 0x7FFF_FFFF_FFFF_FFFF

  /** The range of Go's 64-bit `int`. */
  predicate InInt64(v: int) {
    MinInt64 <= v <= MaxInt64
  }

  predicate IsDigit(ch: char) {
    '0' <= ch <= '9'
  }

  predicate AllDigits(s: string) {
    forall i | 0 <= i < |s| :: IsDigit(s[i])
  }

  function DigitsValue(s: string): nat
    requires AllDigits(s)
  {
    if s == [] then 0 else 10 * DigitsValue(s[..|s| - 1]) + (s[|s| - 1] as int - '0' as int)
  }

  /**
   * `strconv.Atoi`: an optional sign followed by one or more decimal digits,
   * whose value fits a 64-bit int; anything else is an error (None).
   */
  function Atoi(s: string): (r: Option<int>)
    ensures r.Some? ==> InInt64(r.value)
    ensures r.Some? ==> s != [] && (AllDigits(s) || (AllDigits(s[1..]) && |s| >= 2 && (s[0] == '-' || s[0] == '+')))
  {
    var signed := |s| > 0 && (s[0] == '-' || s[0] == '+');
    var digits := if signed then s[1..] else s;
    if |digits| == 0 || !AllDigits(digits) then None
    else
      var magnitude: int := DigitsValue(digits);
      var v: int := if signed && s[0] == '-' then -magnitude else magnitude;
      if InInt64(v) then Some(v) else None
  }

  function DigitChar(d: nat): (ch: char)
    requires d < 10
    ensures IsDigit(ch) && ch as int - '0' as int == d
  {
    ('0' as int + d) as char
  }

  /** The shortest decimal spelling of a natural number. */
  function NatDigits(n: nat): (s: string)
    ensures s != [] && AllDigits(s)
    ensures DigitsValue(s) == n
    ensures s[0] == '0' <==> n == 0
    ensures n == 0 ==> s == "0"
  {
    if n < 10 then [DigitChar(n)]
    else
      var s := NatDigits(n / 10) + [DigitChar(n % 10)];
      assert s[..|s| - 1] == NatDigits(n / 10);
      s
  }

  /** `fmt.Sprintf("%d", v)`, equivalently `strconv.Itoa(v)`. */
  function Itoa(v: int): (s: string)
    ensures s != [] && NoSpace(s) && ':' !in s && ',' !in s && '\n' !in s
    ensures v < 0 <==> s[0] == '-'
    ensures v >= 0 ==> AllDigits(s) && DigitsValue(s) == v && (|s| == 1 || s[0] != '0')
    ensures v < 0 ==> |s| >= 2 && AllDigits(s[1..]) && DigitsValue(s[1..]) == -v && s[1] != '0'
  {
    var s := if v < 0 then "-" + NatDigits(-v) else NatDigits(v);
    assert forall i | 0 <= i < |s| :: s[i] == '-' || IsDigit(s[i]);
    s
  }

  /** Printing a 64-bit integer in decimal and reading it back with Atoi is the identity. */
  lemma AtoiItoa(v: int)
    requires InInt64(v)
    ensures Atoi(Itoa(v)) == Some(v)
  {
    if v < 0 {
      assert ("-" + NatDigits(-v))[1..] == NatDigits(-v);
    } else {
      assert !(Itoa(v)[0] == '-' || Itoa(v)[0] == '+');
    }
  }
}
