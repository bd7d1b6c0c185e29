/**
 * A comparison network: an ordered list of comparators, read from text of
 * comma-separated "a:b" tokens on one or more lines, printed back as one
 * comma-separated line, run on the bits of a word, and checked with the
 * zero-one principle.
 */
module Networks {
  import opened Outcomes
  import opened GoText
  import opened Bits
  import opened Comparators
  import opened Exchange

  // ---------------------------------------------------------------- the tokens of a text

  /**
   * Each piece trimmed of surrounding space, with the pieces that are then
   * empty left out, in their original order.
   */
  function Trimmed(pieces: seq<string>): (ts: seq<string>)
    ensures |ts| <= |pieces|
  {
    if |pieces| == 0 then []
    else
      var t := TrimSpace(pieces[|pieces| - 1]);
      Trimmed(pieces[..|pieces| - 1]) + (if t == "" then [] else [t])
  }

  /** The comparator tokens on one line. */
  function LineTokens(line: string): seq<string> {
    Trimmed(Split(TrimSpace(line), ','))
  }

  /** The tokens of the lines, top to bottom. */
  function LinesTokens(lines: seq<string>): seq<string>
  {
    if |lines| == 0 then []
    else LinesTokens(lines[..|lines| - 1]) + LineTokens(lines[|lines| - 1])
  }

  /** The tokens Parse reads from a text. */
  function Tokens(data: string): seq<string> {
    LinesTokens(Split(data, '\n'))
  }

  lemma {:induction false} TrimmedConcat(a: seq<string>, b: seq<string>)
    ensures Trimmed(a + b) == Trimmed(a) + Trimmed(b)
  {
    if |b| == 0 {
      assert a + b == a;
    } else {
      var init, last := b[..|b| - 1], b[|b| - 1];
      InitOfConcat(a, b);
      TrimmedConcat(a, init);
      var t := TrimSpace(last);
      Regroup(Trimmed(a), Trimmed(init), if t == "" then [] else [t], []);
    }
  }

  lemma {:induction false} LinesTokensConcat(a: seq<string>, b: seq<string>)
    ensures LinesTokens(a + b) == LinesTokens(a) + LinesTokens(b)
  {
    if |b| == 0 {
      assert a + b == a;
    } else {
      var init, last := b[..|b| - 1], b[|b| - 1];
      InitOfConcat(a, b);
      LinesTokensConcat(a, init);
      Regroup(LinesTokens(a), LinesTokens(init), LineTokens(last), []);
    }
  }

  /** Dropping the last element of a + b drops it from b. */
  lemma InitOfConcat<X>(a: seq<X>, b: seq<X>)
    requires |b| > 0
    ensures (a + b)[..|a + b| - 1] == a + b[..|b| - 1]
    ensures (a + b)[|a + b| - 1] == b[|b| - 1]
  {
  }

  /** The tokens of two texts joined by a newline are those of the first, then those of the second. */
  lemma TokensOfLines(a: string, b: string)
    ensures Tokens(a + "\n" + b) == Tokens(a) + Tokens(b)
  {
    assert a + "\n" + b == a + ['\n'] + b;
    SplitConcat(a, b, '\n');
    LinesTokensConcat(Split(a, '\n'), Split(b, '\n'));
  }

  /** A line of nothing but spaces holds no tokens. */
  lemma BlankLine(line: string)
    requires AllSpace(line)
    ensures LineTokens(line) == []
  {
    TrimSpaceSpec(line);
    assert Split("", ',') == [""];
    assert Trimmed([""]) == Trimmed([]) + [];
  }

  /** Dropping blank pieces makes an empty last piece disappear. */
  lemma TrimmedEmptyLast(ps: seq<string>)
    ensures Trimmed(ps + [""]) == Trimmed(ps)
  {
    assert (ps + [""])[..|ps|] == ps;
    assert TrimSpace("") == "";
  }

  /** Spaces added to the last piece are trimmed away again. */
  lemma TrimmedSpacesOnLast(ps: seq<string>, w: string)
    requires |ps| > 0 && AllSpace(w)
    ensures Trimmed(ps[..|ps| - 1] + [ps[|ps| - 1] + w]) == Trimmed(ps)
  {
    var init, last := ps[..|ps| - 1], ps[|ps| - 1];
    TrimSpaceThenSpaces(last, w);
    assert (init + [last + w])[..|init|] == init;
    assert ps[..|ps| - 1] == init;
  }

  /** A comma at the end of a line adds no token. */
  lemma TrailingComma(line: string)
    ensures LineTokens(line + ",") == LineTokens(line)
  {
    var l := TrimLeft(line);
    TrimLeftAppend(line, ",");
    if l == [] {
      TrailingCommaBlank(line);
    } else {
      TrailingCommaText(line, l);
    }
  }

  lemma TrailingCommaBlank(line: string)
    requires TrimLeft(line) == [] && TrimLeft(line + ",") == TrimLeft(line) + ","
    ensures LineTokens(line + ",") == LineTokens(line)
  {
    assert TrimSpace(line + ",") == [] + [','] + [];
    SplitConcat([], [], ',');
    assert Split("", ',') == [""];
    TrimmedEmptyLast([""]);
    assert TrimSpace(line) == [];
  }

  lemma TrailingCommaText(line: string, l: string)
    requires l == TrimLeft(line) && l != [] && TrimLeft(line + ",") == l + ","
    ensures LineTokens(line + ",") == LineTokens(line)
  {
    var p := TrimRight(l);
    TrimRightSpec(l);
    assert TrimSpace(line + ",") == l + [','] + [];
    SplitConcat(l, [], ',');
    assert Split("", ',') == [""];
    TrimmedEmptyLast(Split(l, ','));
    var w := l[|p|..];
    assert l == p + w;
    SplitSuffix(p, w, ',');
    TrimmedSpacesOnLast(Split(p, ','), w);
  }


  // ---------------------------------------------------------------- reading the tokens

  /** What reading each token on its own gives. */
  function Results(ts: seq<string>): (rs: seq<Result<Comparator, Error>>)
    ensures |rs| == |ts|
  {
    seq(|ts|, k requires 0 <= k < |ts| => Comparators.Parse(ts[k]))
  }

  lemma ResultsConcat(a: seq<string>, b: seq<string>)
    ensures Results(a + b) == Results(a) + Results(b)
  {
  }

  /**
   * The values of the results, in order, or the error of the first result
   * that is an error.
   */
  function Collect<T, E>(rs: seq<Result<T, E>>): (r: Result<seq<T>, E>)
    ensures r.Ok? <==> forall k | 0 <= k < |rs| :: rs[k].Ok?
    ensures r.Ok? ==> |r.value| == |rs| && forall k | 0 <= k < |rs| :: r.value[k] == rs[k].value
    ensures r.Err? ==> exists k | 0 <= k < |rs| ::
      && rs[k] == Err(r.error)
      && forall j | 0 <= j < k :: rs[j].Ok?
  {
    if |rs| == 0 then Ok([])
    else
      var init := rs[..|rs| - 1];
      assert forall k | 0 <= k < |init| :: init[k] == rs[k];
      match Collect(init)
      case Err(e) => Err(e)
      case Ok(vs) =>
        match rs[|rs| - 1]
        case Err(e) => Err(e)
        case Ok(v) => Ok(vs + [v])
  }

  /** Once a result is an error, later results do not matter. */
  lemma {:induction false} CollectStopsAtError<T, E>(rs: seq<Result<T, E>>, us: seq<Result<T, E>>)
    requires Collect(rs).Err?
    ensures Collect(rs + us) == Collect(rs)
  {
    if |us| > 0 {
      assert (rs + us)[..|rs + us| - 1] == rs + us[..|us| - 1];
      CollectStopsAtError(rs, us[..|us| - 1]);
    } else {
      assert rs + us == rs;
    }
  }

  /** One more result: its value is appended, or its error becomes the outcome. */
  lemma CollectStep<T, E>(rs: seq<Result<T, E>>, vs: seq<T>, r: Result<T, E>)
    requires Collect(rs) == Ok(vs)
    ensures r.Ok? ==> Collect(rs + [r]) == Ok(vs + [r.value])
    ensures r.Err? ==> Collect(rs + [r]) == Err(r.error)
  {
    assert (rs + [r])[..|rs|] == rs;
  }

  /** Two runs of results collect to both values in order, if neither has an error. */
  lemma CollectConcat<T, E>(rs: seq<Result<T, E>>, us: seq<Result<T, E>>)
    ensures Collect(rs + us).Ok? <==> Collect(rs).Ok? && Collect(us).Ok?
    ensures Collect(rs + us).Ok? ==> Collect(rs + us).value == Collect(rs).value + Collect(us).value
  {
    var t := rs + us;
    assert forall k | 0 <= k < |rs| :: t[k] == rs[k];
    assert forall k | 0 <= k < |us| :: t[|rs| + k] == us[k];
    if Collect(t).Ok? {
      assert Collect(t).value == Collect(rs).value + Collect(us).value;
    }
  }

  /** The network comparisonnetwork.Parse returns, or its error; never a partial network. */
  function ParseText(data: string): Result<ComparisonNetwork, Error> {
    match Collect(Results(Tokens(data)))
    case Ok(cs) => Ok(ComparisonNetwork(cs))
    case Err(e) => Err(e)
  }

  /**
   * Lines are read top to bottom: a text of two parts parses iff both parts
   * do, to the first part's comparators followed by the second's.
   */
  lemma ParseLinesInOrder(a: string, b: string)
    ensures ParseText(a + "\n" + b).Ok? <==> ParseText(a).Ok? && ParseText(b).Ok?
    ensures ParseText(a + "\n" + b).Ok? ==>
      ParseText(a + "\n" + b).value.comparators == ParseText(a).value.comparators + ParseText(b).value.comparators
  {
    TokensOfLines(a, b);
    ResultsConcat(Tokens(a), Tokens(b));
    CollectConcat(Results(Tokens(a)), Results(Tokens(b)));
  }

  // ---------------------------------------------------------------- printing

  /** The text of each comparator, in order. */
  function Strings(cs: seq<Comparator>): (ss: seq<string>)
    ensures |ss| == |cs| && forall k | 0 <= k < |cs| :: ss[k] == cs[k].String()
  {
    seq(|cs|, k requires 0 <= k < |cs| => cs[k].String())
  }

  lemma StringsStep(cs: seq<Comparator>, i: int)
    requires 0 <= i < |cs|
    ensures Strings(cs[..i + 1]) == Strings(cs[..i]) + [cs[i].String()]
  {
    var a, b := cs[..i + 1], cs[..i];
    var l, r := Strings(a), Strings(b) + [cs[i].String()];
    forall k | 0 <= k < i + 1 ensures l[k] == r[k] {
      if k < i {
        assert a[k] == b[k];
      } else {
        assert a[k] == cs[i];
      }
    }
  }

  /** Every comparator is canonical and fits Go's int, as Parse produces them. */
  predicate Canonical(cs: seq<Comparator>) {
    forall k | 0 <= k < |cs| :: cs[k].i1 < cs[k].i2 && InInt64(cs[k].i1) && InInt64(cs[k].i2)
  }

  /** The tokens of a printed network are the comparators' own texts. */
  lemma TokensOfText(cs: seq<Comparator>)
    ensures Tokens(Join(Strings(cs), ',')) == Strings(cs)
  {
    var ss := Strings(cs);
    var text := Join(ss, ',');
    JoinNoSpace(ss, ',');
    TrimSpaceNoSpace(text);
    JoinNoNewline(ss);
    assert Split(text, '\n') == [text];
    assert Tokens(text) == LinesTokens([]) + LineTokens(text);
    if |ss| == 0 {
      assert Split("", ',') == [""];
      assert Trimmed([""]) == Trimmed([]) + [];
    } else {
      SplitJoin(ss, ',');
      TrimmedTokens(ss);
    }
  }

  lemma {:induction false} JoinNoNewline(ss: seq<string>)
    requires forall k | 0 <= k < |ss| :: '\n' !in ss[k]
    ensures '\n' !in Join(ss, ',')
  {
    if |ss| > 1 {
      JoinNoNewline(ss[1..]);
    }
  }

  /** Trimming pieces that are nonempty and free of spaces changes nothing. */
  lemma {:induction false} TrimmedTokens(ss: seq<string>)
    requires forall k | 0 <= k < |ss| :: ss[k] != [] && NoSpace(ss[k])
    ensures Trimmed(ss) == ss
  {
    if |ss| > 0 {
      TrimmedTokens(ss[..|ss| - 1]);
      TrimSpaceNoSpace(ss[|ss| - 1]);
    }
  }

  /** Printing a network and parsing the text gives back the same ordered comparators. */
  lemma ParseRoundTrip(cn: ComparisonNetwork)
    requires Canonical(cn.comparators)
    ensures ParseText(cn.Text()) == Ok(cn)
  {
    var cs := cn.comparators;
    TokensOfText(cs);
    var rs := Results(Strings(cs));
    forall k | 0 <= k < |cs| ensures rs[k] == Ok(cs[k]) {
      ParseString(cs[k]);
    }
    CollectAllOk(rs, cs);
  }

  lemma CollectAllOk<T, E>(rs: seq<Result<T, E>>, vs: seq<T>)
    requires |rs| == |vs| && forall k | 0 <= k < |rs| :: rs[k] == Ok(vs[k])
    ensures Collect(rs) == Ok(vs)
  {
    assert Collect(rs).Ok?;
    assert Collect(rs).value == vs;
  }

  // ---------------------------------------------------------------- the largest wire

  /** The largest second input, or 0 when there is none or all are negative. */
  function MaxWire(cs: seq<Comparator>): (m: int)
    ensures m >= 0
    ensures forall k | 0 <= k < |cs| :: cs[k].i2 <= m
    ensures m == 0 || exists k | 0 <= k < |cs| :: cs[k].i2 == m
  {
    if |cs| == 0 then 0
    else
      var m := MaxWire(cs[..|cs| - 1]);
      assert forall k | 0 <= k < |cs| - 1 :: cs[..|cs| - 1][k] == cs[k];
      if cs[|cs| - 1].i2 > m then cs[|cs| - 1].i2 else m
  }

  /** One word that fails the check decides the verdict. */
  lemma VerdictFalse(cs: seq<Comparator>, n: nat, x: nat)
    requires WiresBelow(cs, n) && x < Pow2(n) && !SortsWord(cs, n, x)
    ensures !SortsEveryWord(cs, n) && !SortsEverySequence(cs, n)
  {
    ZeroOnePrinciple(cs, n);
  }

  /** Every word below m passes the check. */
  ghost predicate SortsWordsBelow(cs: seq<Comparator>, n: nat, m: nat)
    requires WiresBelow(cs, n) && m <= Pow2(n)
  {
    forall x: nat | x < m :: SortsWord(cs, n, x)
  }

  lemma SortsWordsBelowStep(cs: seq<Comparator>, n: nat, m: nat)
    requires WiresBelow(cs, n) && m < Pow2(n)
    requires SortsWordsBelow(cs, n, m) && SortsWord(cs, n, m)
    ensures SortsWordsBelow(cs, n, m + 1)
  {
  }

  /** When every word passes the check, the network sorts. */
  lemma VerdictTrue(cs: seq<Comparator>, n: nat)
    requires WiresBelow(cs, n) && SortsWordsBelow(cs, n, Pow2(n))
    ensures SortsEveryWord(cs, n) && SortsEverySequence(cs, n)
  {
    ZeroOnePrinciple(cs, n);
  }

  /** Words of n < 64 bits, and the wires they hold, fit a 64-bit word. */
  lemma WordsFit(cs: seq<Comparator>, n: nat)
    requires WiresBelow(cs, n) && n < 64
    ensures WiresBelow(cs, 64) && Pow2(n) < Pow2(64)
  {
    Pow2Grows(n, 64);
  }

  /** For comparators over wires from 0 up, MaxWire() + 1 wires hold every input. */
  lemma MaxWireCoversInputs(cs: seq<Comparator>)
    requires forall k | 0 <= k < |cs| :: 0 <= cs[k].i1 <= cs[k].i2
    ensures WiresBelow(cs, MaxWire(cs) + 1)
  {
  }

  /** The comparators of a network, as read by Parse. */
  datatype ComparisonNetwork = ComparisonNetwork(comparators: seq<Comparator>) {

    /** The comparators' texts joined by ','. */
    function Text(): string {
      Join(Strings(comparators), ',')
    }

    /** Collects the comparator texts one by one and joins them. */
    method String() returns (s: string)
      ensures s == Text()
    {
      var parts: seq<string> := [];
      for i := 0 to |comparators|
        invariant parts == Strings(comparators[..i])
      {
        parts := parts + [comparators[i].String()];
        StringsStep(comparators, i);
      }
      assert comparators[..|comparators|] == comparators;
      s := Join(parts, ',');
    }

    method MaxInput() returns (maxInput: int)
      ensures maxInput == MaxWire(comparators)
    {
      maxInput := 0;
      for i := 0 to |comparators|
        invariant maxInput == MaxWire(comparators[..i])
      {
        assert comparators[..i + 1][..i] == comparators[..i];
        if comparators[i].Input2() > maxInput {
          maxInput := comparators[i].Input2();
        }
      }
      assert comparators[..|comparators|] == comparators;
    }

    /**
     * Runs the comparators on the bits of a 64-bit word: where bit Input1 is
     * 1 and bit Input2 is 0, both bits are flipped.
     */
    method SortBinarySequence(sequence: nat) returns (result: nat)
      requires sequence < Pow2(64) && WiresBelow(comparators, 64)
      ensures result == SortBinary(comparators, sequence)
      ensures result < Pow2(64)
      ensures OnesCount(result) == OnesCount(sequence)
    {
      result := sequence;
      for i := 0 to |comparators|
        invariant result == SortBinary(comparators[..i], sequence)
      {
        assert comparators[..i + 1][..i] == comparators[..i];
        var c := comparators[i];
        var pos0 := Bit(result, c.Input1());
        var pos1 := Bit(result, c.Input2());
        if pos0 > pos1 {
          result := Xor(result, Or(Pow2(c.Input1()), Pow2(c.Input2())));
        }
      }
      assert comparators[..|comparators|] == comparators;
      SortBinaryDecode(comparators, sequence, 64);
      SortBinaryOnesCount(comparators, sequence, 64);
    }

    /**
     * The work of one goroutine of the check: the word run through the
     * network must equal its ones moved to the top, `(1 << ones - 1) << zeros`,
     * or 0 when it has no one bit.
     */
    method CheckWord(sequence: nat, numberOfInputs: nat) returns (passes: bool)
      requires numberOfInputs < 64 && sequence < Pow2(numberOfInputs)
      requires WiresBelow(comparators, numberOfInputs)
      ensures passes <==> SortsWord(comparators, numberOfInputs, sequence)
    {
      WordsFit(comparators, numberOfInputs);
      OnesCountDecode(sequence, numberOfInputs);
      var onesCount := OnesCount(sequence);
      var expectedSortedSequence: nat;
      if onesCount > 0 {
        var zerosCount := numberOfInputs - onesCount;
        expectedSortedSequence := OnesShifted(onesCount, zerosCount);
      } else {
        expectedSortedSequence := 0;
      }
      var sorted := SortBinarySequence(sequence);
      passes := sorted == expectedSortedSequence;
    }

    /**
     * The zero-one check, one word after another: every word below 2^n, with
     * n = MaxInput() + 1, must come out as its ones moved to the top.
     * The verdict is that the network sorts every sequence of n integers.
     */
    method IsSortingNetwork() returns (ok: bool)
      requires WiresBelow(comparators, MaxWire(comparators) + 1)
      requires MaxWire(comparators) + 1 < 64
      ensures ok <==> SortsEveryWord(comparators, MaxWire(comparators) + 1)
      ensures ok <==> SortsEverySequence(comparators, MaxWire(comparators) + 1)
    {
      var maxInput := MaxInput();
      var numberOfInputs := maxInput + 1;
      assert numberOfInputs == MaxWire(comparators) + 1;
      WordsFit(comparators, numberOfInputs);
      var sequence: nat := 0;
      while sequence < Pow2(numberOfInputs)
        invariant sequence <= Pow2(numberOfInputs)
        invariant SortsWordsBelow(comparators, numberOfInputs, sequence)
        decreases Pow2(numberOfInputs) - sequence
      {
        var passes := CheckWord(sequence, numberOfInputs);
        if !passes {
          VerdictFalse(comparators, numberOfInputs, sequence);
          return false;
        }
        SortsWordsBelowStep(comparators, numberOfInputs, sequence);
        sequence := sequence + 1;
      }
      VerdictTrue(comparators, numberOfInputs);
      return true;
    }
  }

  /**
   * Reads the lines of the text top to bottom and the comma-separated tokens
   * of each line left to right, skipping tokens that are blank after
   * trimming; the first token that is not a comparator ends the parse with
   * its error.
   */
  method Parse(data: string) returns (r: Result<ComparisonNetwork, Error>)
    ensures r == ParseText(data)
  {
    var lines := Split(data, '\n');
    var cs: seq<Comparator> := [];
    for i := 0 to |lines|
      invariant Collect(Results(LinesTokens(lines[..i]))) == Ok(cs)
    {
      var read := ParseLine(lines[i], LinesTokens(lines[..i]), cs);
      LinesTokensStep(lines, i);
      if read.Err? {
        ParseFailsAt(lines, i);
        return Err(read.error);
      }
      cs := read.value;
    }
    Cut(lines, |lines|);
    return Ok(ComparisonNetwork(cs));
  }

  /**
   * The inner loop of Parse: the tokens of one line appended to those read
   * before it, or the error of the first one that is not a comparator.
   */
  method ParseLine(line: string, ghost earlier: seq<string>, cs: seq<Comparator>)
    returns (r: Result<seq<Comparator>, Error>)
    requires Collect(Results(earlier)) == Ok(cs)
    ensures r == Collect(Results(earlier + LineTokens(line)))
  {
    var pieces := Split(TrimSpace(line), ',');
    Cut(pieces, 0);
    Regroup(earlier, [], [], []);
    var read := cs;
    for j := 0 to |pieces|
      invariant Collect(Results(earlier + Trimmed(pieces[..j]))) == Ok(read)
    {
      ghost var before := earlier + Trimmed(pieces[..j]);
      TrimmedStep(pieces, j);
      var c := TrimSpace(pieces[j]);
      if c != "" {
        Regroup(earlier, Trimmed(pieces[..j]), [c], []);
        var parsed := Comparators.Parse(c);
        ResultsStep(before, c);
        CollectStep(Results(before), read, parsed);
        if parsed.Err? {
          LineFailsAt(earlier, pieces, j);
          return Err(parsed.error);
        }
        read := read + [parsed.value];
      } else {
        Regroup(Trimmed(pieces[..j]), [], [], []);
      }
    }
    Cut(pieces, |pieces|);
    return Ok(read);
  }

  /** A failure among the tokens of a line read so far is the failure of the line. */
  lemma LineFailsAt(earlier: seq<string>, pieces: seq<string>, j: int)
    requires 0 <= j < |pieces|
    requires Collect(Results(earlier + Trimmed(pieces[..j + 1]))).Err?
    ensures Collect(Results(earlier + Trimmed(pieces)))
      == Collect(Results(earlier + Trimmed(pieces[..j + 1])))
  {
    var a, b := Trimmed(pieces[..j + 1]), Trimmed(pieces[j + 1..]);
    Cut(pieces, j + 1);
    TrimmedConcat(pieces[..j + 1], pieces[j + 1..]);
    Regroup(earlier, a, b, []);
    ResultsConcat(earlier + a, b);
    CollectStopsAtError(Results(earlier + a), Results(b));
  }

  /** A failure in line i is the failure of the whole text. */
  lemma ParseFailsAt(lines: seq<string>, i: int)
    requires 0 <= i < |lines|
    requires Collect(Results(LinesTokens(lines[..i + 1]))).Err?
    ensures Collect(Results(LinesTokens(lines))) == Collect(Results(LinesTokens(lines[..i + 1])))
  {
    Cut(lines, i + 1);
    LinesTokensConcat(lines[..i + 1], lines[i + 1..]);
    ResultsConcat(LinesTokens(lines[..i + 1]), LinesTokens(lines[i + 1..]));
    CollectStopsAtError(Results(LinesTokens(lines[..i + 1])), Results(LinesTokens(lines[i + 1..])));
  }

  lemma LinesTokensStep(lines: seq<string>, i: int)
    requires 0 <= i < |lines|
    ensures LinesTokens(lines[..i + 1]) == LinesTokens(lines[..i]) + LineTokens(lines[i])
  {
    assert lines[..i + 1][..i] == lines[..i];
  }

  lemma TrimmedStep(pieces: seq<string>, j: int)
    requires 0 <= j < |pieces|
    ensures var t := TrimSpace(pieces[j]);
      Trimmed(pieces[..j + 1]) == Trimmed(pieces[..j]) + (if t == "" then [] else [t])
  {
    assert pieces[..j + 1][..j] == pieces[..j];
  }

  lemma Cut<X>(s: seq<X>, k: int)
    requires 0 <= k <= |s|
    ensures s[..k] + s[k..] == s && s[..|s|] == s && s[..0] == []
  {
  }

  lemma Regroup<X>(p: seq<X>, a: seq<X>, b: seq<X>, q: seq<X>)
    ensures p + (a + b) + q == (p + a) + (b + q)
    ensures (p + a) + b == p + (a + b)
    ensures p + [] == p
  {
  }

  lemma ResultsStep(ts: seq<string>, t: string)
    ensures Results(ts + [t]) == Results(ts) + [Comparators.Parse(t)]
  {
  }
}
