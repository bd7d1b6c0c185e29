/**
 * The single-file program: the same engine with wire indices stored in a
 * byte. Its overlaps, hasSameInput, getMaxInput, sortBinarySequence and
 * isSortingNetwork are the algorithms of the package and are modelled by
 * the same members (Layout.Overlap, Layout.HaveAnySameInput,
 * Networks.ComparisonNetwork.MaxInput, .SortBinarySequence,
 * .IsSortingNetwork). What differs is here: the byte comparator reader,
 * the sort of a sequence of values, and the wire count of the drawing,
 * which is computed in a byte.
 */
module Legacy {
  import opened Outcomes
  import opened GoText
  import opened Comparators
  import opened Exchange
  import opened Networks
  import opened Layout

  /** Go's conversion of an int to byte keeps the value modulo 256. */
  function Byte(v: int): (b: int)
    ensures 0 <= b < 256
    ensures 0 <= v < 256 ==> b == v
  {
    v % 256
  }

  /**
   * newComparator reads the first two ':'-separated fields; a field that is
   * not an integer ends the program (log.Fatalf) and a token without ':'
   * indexes a missing field. Either way nothing is returned.
   */
  predicate Readable(s: string) {
    var f := Split(s, ':');
    Atoi(f[0]).Some? && |f| >= 2 && Atoi(f[1]).Some?
  }

  function Min(a: int, b: int): int {
    if a < b then a else b
  }

  function Max(a: int, b: int): int {
    if a < b then b else a
  }

  /**
   * newComparator as written: the smaller number goes first, then both are
   * cut to a byte. Equal inputs are accepted. The stored wires are the two
   * numbers modulo 256, which keeps them ordered only when both fit a byte.
   */
  function NewByteComparator(s: string): (c: Comparator)
    requires Readable(s)
    ensures var f := Split(s, ':'); var a, b := Atoi(f[0]).value, Atoi(f[1]).value;
      && 0 <= c.i1 < 256 && 0 <= c.i2 < 256
      && c.i1 == Byte(Min(a, b)) && c.i2 == Byte(Max(a, b))
      && multiset{c.i1, c.i2} == multiset{Byte(a), Byte(b)}
      && (0 <= a < 256 && 0 <= b < 256 ==> c.i1 <= c.i2 && multiset{c.i1, c.i2} == multiset{a, b})
      && (a == b ==> c.i1 == c.i2)
  {
    var f := Split(s, ':');
    var i1, i2 := Atoi(f[0]).value, Atoi(f[1]).value;
    if i1 < i2 then Comparator(Byte(i1), Byte(i2)) else Comparator(Byte(i2), Byte(i1))
  }

  /** The text "a:b" for two integers. */
  function Token(a: int, b: int): string {
    Itoa(a) + ":" + Itoa(b)
  }

  lemma TokenFields(a: int, b: int)
    requires InInt64(a) && InInt64(b)
    ensures Readable(Token(a, b))
    ensures var f := Split(Token(a, b), ':'); Atoi(f[0]) == Some(a) && Atoi(f[1]) == Some(b)
  {
    SplitAround(Itoa(a), Itoa(b), ':');
    assert Token(a, b) == Itoa(a) + [':'] + Itoa(b);
    assert Split(Itoa(b), ':') == [Itoa(b)];
    AtoiItoa(a);
    AtoiItoa(b);
  }

  /** Unlike the package, the same wire twice makes a comparator. */
  lemma EqualInputsAccepted(a: int)
    requires 0 <= a < 256
    ensures Readable(Token(a, a)) && NewByteComparator(Token(a, a)) == Comparator(a, a)
  {
    TokenFields(a, a);
  }

  /**
   * Truncation can reverse the order: a wire below 256 paired with one
   * from 256 to 511 keeps the first and wraps the second, so "255:256"
   * gives the comparator 255:0, with its first wire the larger.
   */
  lemma TruncationUnorders(a: int, b: int)
    requires 0 <= a < 256 <= b < 512
    ensures Readable(Token(a, b))
    ensures NewByteComparator(Token(a, b)) == Comparator(a, b - 256)
    ensures a > b - 256 ==> NewByteComparator(Token(a, b)).i1 > NewByteComparator(Token(a, b)).i2
  {
    TokenFields(a, b);
    ByteWraps(b);
  }

  lemma ByteWraps(b: int)
    requires 256 <= b < 512
    ensures Byte(b) == b - 256
  {
    var q, r := b / 256, b % 256;
    assert b == 256 * q + r;
    assert q == 1;
  }

  lemma TruncationExample()
    ensures Readable(Token(255, 256)) && NewByteComparator(Token(255, 256)) == Comparator(255, 0)
  {
    TruncationUnorders(255, 256);
  }

  /**
   * The reader with the evident intent of the byte fields: a wire outside
   * 0 .. 255 is refused instead of wrapped, so every comparator read holds
   * the two wires named, the smaller first.
   */
  function NewCheckedByteComparator(s: string): (r: Option<Comparator>)
    requires Readable(s)
    ensures var f := Split(s, ':'); var a, b := Atoi(f[0]).value, Atoi(f[1]).value;
      && (r.Some? <==> 0 <= a < 256 && 0 <= b < 256)
      && (r.Some? ==> r.value.i1 <= r.value.i2 && multiset{r.value.i1, r.value.i2} == multiset{a, b})
  {
    var f := Split(s, ':');
    var i1, i2 := Atoi(f[0]).value, Atoi(f[1]).value;
    if 0 <= i1 < 256 && 0 <= i2 < 256 then Some(NewByteComparator(s)) else None
  }

  // ---------------------------------------------------------------- sorting values

  /**
   * sortSequence: copies the values into a new array and runs every
   * comparator on the copy, swapping the two values when the first is the
   * larger. The argument is left as it was; the result is the network
   * applied to it, so a rearrangement of it in which the pair of every
   * comparator was in order right after that comparator ran.
   */
  method SortSequence(cn: ComparisonNetwork, sequence: array<int>) returns (result: array<int>)
    requires WiresBelow(cn.comparators, sequence.Length)
    ensures fresh(result)
    ensures result[..] == Apply(cn.comparators, sequence[..])
    ensures multiset(result[..]) == multiset(sequence[..])
  {
    result := new int[sequence.Length];
    forall i | 0 <= i < sequence.Length {
      result[i] := sequence[i];
    }
    var cs := cn.comparators;
    assert result[..] == Apply(cs[..0], sequence[..]);
    for k := 0 to |cs|
      invariant result[..] == Apply(cs[..k], sequence[..])
    {
      assert cs[..k + 1][..k] == cs[..k];
      var c := cs[k];
      if result[c.i1] > result[c.i2] {
        result[c.i1], result[c.i2] := result[c.i2], result[c.i1];
      }
    }
    assert cs[..|cs|] == cs;
  }

  /** A network that passes the zero-one check sorts every sequence of values. */
  lemma SortedBySortingNetwork(cs: seq<Comparator>, a: seq<int>)
    requires WiresBelow(cs, |a|) && SortsEveryWord(cs, |a|)
    ensures Sorted(Apply(cs, a))
  {
    ZeroOnePrinciple(cs, |a|);
  }

  // ---------------------------------------------------------------- the drawing

  /**
   * svg of the single-file program: the layout of the package, drawn as
   * written (the width is the last w plus 35), with the wire count
   * n = getMaxInput() + 1 computed in a byte, so it wraps to 0 when wire 255
   * is used.
   */
  method Svg(cn: ComparisonNetwork) returns (p: Picture)
    ensures DrawnAsWritten(cn.comparators, Byte(MaxWire(cn.comparators) + 1), p)
  {
    var glyphs, w, group := PlaceComparators(cn.comparators);
    w := w + XScale;
    var maxInput := cn.MaxInput();
    var n := Byte(maxInput + 1);
    var lines := WireLines(n, w);
    p := Picture(w, (n + 1) * YScale, glyphs, lines);
  }

  /**
   * A network that uses wire 255 is drawn with no wire line at all and a
   * height of 20, above its comparators; the unwrapped count draws all 256.
   */
  lemma WireCountWraps(cs: seq<Comparator>, p: Picture, q: Picture)
    requires MaxWire(cs) == 255
    requires DrawnAsWritten(cs, Byte(MaxWire(cs) + 1), p)
    requires Drawn(cs, MaxWire(cs) + 1, q)
    ensures |p.lines| == 0 && p.height == YScale
    ensures |q.lines| == 256 && q.height == 257 * YScale
  {
  }
}
