/**
 * A comparator: a compare-and-swap between two wires, kept with the smaller
 * wire index first, together with its "a:b" text form and the parser for it.
 */
module Comparators {
  import opened Outcomes
  import opened GoText

  /**
   * The two wire indices of a comparator. Every value built by NewComparator
   * or Parse has i1 < i2; the byte-wide comparators of the single-file
   * program need not (see module Legacy), so the type itself does not insist.
   */
  datatype Comparator = Comparator(i1: int, i2: int) {

    function Input1(): int {
      i1
    }

    function Input2(): int {
      i2
    }

    /**
     * `"<i1>:<i2>"`: the two ':'-separated fields are the decimal spellings
     * of the two wires (a '-' only for a negative wire, no leading zero).
     */
    function String(): (s: string)
      ensures Split(s, ':') == [Itoa(i1), Itoa(i2)]
      ensures s != [] && NoSpace(s) && ',' !in s && '\n' !in s
    {
      var a, b := Itoa(i1), Itoa(i2);
      var s := a + ":" + b;
      assert forall k | 0 <= k < |s| ::
        (s[k] == ':' || (k < |a| && s[k] == a[k]) || (k > |a| && s[k] == b[k - |a| - 1]));
      assert s == a + [':'] + b;
      SplitAround(a, b, ':');
      s
    }
  }

  /** The two errors the package reports. */
  datatype Error = SameInputs | InvalidComparator(token: string)

  /**
   * Equal inputs are refused; otherwise the comparator holds the same two
   * wires, the smaller one first.
   */
  function NewComparator(input1: int, input2: int): (r: Result<Comparator, Error>)
    ensures r.Err? <==> input1 == input2
    ensures r.Err? ==> r.error == SameInputs
    ensures r.Ok? ==> r.value.Input1() < r.value.Input2()
    ensures r.Ok? ==> multiset{r.value.Input1(), r.value.Input2()} == multiset{input1, input2}
  {
    if input1 == input2 then Err(SameInputs)
    else if input1 < input2 then Ok(Comparator(input1, input2))
    else Ok(Comparator(input2, input1))
  }

  /** The order in which the two wires are named does not matter. */
  lemma NewComparatorSymmetric(a: int, b: int)
    ensures NewComparator(a, b) == NewComparator(b, a)
  {
  }

  /**
   * Reads the first two ':'-separated fields as integers and builds the
   * comparator from them; further fields are ignored. A token without a
   * second field is reported as invalid (the package indexes the missing
   * field instead, see ParseAsWritten).
   */
  function Parse(s: string): (r: Result<Comparator, Error>)
    ensures r.Ok? ==> r.value.Input1() < r.value.Input2()
    ensures r.Ok? ==> InInt64(r.value.Input1()) && InInt64(r.value.Input2())
    ensures r.Err? && r.error.InvalidComparator? ==> r.error.token == s
  {
    var inputs := Split(s, ':');
    match Atoi(inputs[0])
    case None => Err(InvalidComparator(s))
    case Some(i1) =>
      if |inputs| < 2 then Err(InvalidComparator(s))
      else
        match Atoi(inputs[1])
        case None => Err(InvalidComparator(s))
        case Some(i2) => NewComparator(i1, i2)
  }

  /** A token whose first or second field is missing or not an integer is invalid. */
  lemma ParseMalformed(s: string)
    requires var f := Split(s, ':'); Atoi(f[0]).None? || |f| < 2 || Atoi(f[1]).None?
    ensures Parse(s) == Err(InvalidComparator(s))
  {
  }

  /** Two integer fields give NewComparator's answer, including its equal-inputs error. */
  lemma ParseWellFormed(s: string)
    requires var f := Split(s, ':'); |f| >= 2 && Atoi(f[0]).Some? && Atoi(f[1]).Some?
    ensures var f := Split(s, ':'); Parse(s) == NewComparator(Atoi(f[0]).value, Atoi(f[1]).value)
    ensures var f := Split(s, ':'); Parse(s) == Err(SameInputs) <==> Atoi(f[0]).value == Atoi(f[1]).value
  {
  }

  /** Fields after the second one do not change the comparator that is read. */
  lemma ParseIgnoresExtraFields(a: string, b: string, rest: string)
    requires ':' !in a && ':' !in b
    ensures var long := Parse(a + ":" + b + ":" + rest);
      var short := Parse(a + ":" + b);
      && (long.Ok? <==> short.Ok?)
      && (long.Ok? ==> long.value == short.value)
      && (long == Err(SameInputs) <==> short == Err(SameInputs))
  {
    SplitThree(a, b, rest);
    SplitTwo(a, b);
  }

  lemma SplitThree(a: string, b: string, rest: string)
    requires ':' !in a && ':' !in b
    ensures Split(a + ":" + b + ":" + rest, ':') == [a, b] + Split(rest, ':')
  {
    assert a + ":" + b + ":" + rest == a + [':'] + (b + ":" + rest);
    assert b + ":" + rest == b + [':'] + rest;
    SplitAround(a, b + ":" + rest, ':');
    SplitAround(b, rest, ':');
  }

  lemma SplitTwo(a: string, b: string)
    requires ':' !in a && ':' !in b
    ensures Split(a + ":" + b, ':') == [a, b]
  {
    assert a + ":" + b == a + [':'] + b;
    SplitAround(a, b, ':');
    assert Split(b, ':') == [b];
  }

  /** Printing a comparator and parsing the text gives the same comparator back. */
  lemma ParseString(c: Comparator)
    requires c.Input1() < c.Input2()
    requires InInt64(c.Input1()) && InInt64(c.Input2())
    ensures Parse(c.String()) == Ok(c)
  {
    AtoiItoa(c.i1);
    AtoiItoa(c.i2);
  }

  // ---------------------------------------------------------------- the token parser as written

  /** What comparator.Parse does: return normally, or panic on an index out of range. */
  datatype ParseOutcome = Returned(result: Result<Comparator, Error>) | IndexOutOfRange

  /**
   * comparator.Parse exactly as written: `inputs[1]` is read without a length
   * check, so a token with no ':' whose text is an integer panics. Everywhere
   * else it returns what Parse returns.
   */
  function ParseAsWritten(s: string): (r: ParseOutcome)
    ensures r == IndexOutOfRange <==> ':' !in s && Atoi(s).Some?
    ensures r != IndexOutOfRange ==> r == Returned(Parse(s))
  {
    var inputs := Split(s, ':');
    match Atoi(inputs[0])
    case None => Returned(Err(InvalidComparator(s)))
    case Some(i1) =>
      if |inputs| < 2 then IndexOutOfRange
      else
        match Atoi(inputs[1])
        case None => Returned(Err(InvalidComparator(s)))
        case Some(i2) => Returned(NewComparator(i1, i2))
  }

  /** The token "5" makes the package panic where an error was due. */
  lemma ParseAsWrittenPanics()
    ensures ParseAsWritten("5") == IndexOutOfRange
    ensures Parse("5") == Err(InvalidComparator("5"))
  {
    assert Atoi("5") == Some(5) by {
      assert DigitsValue("5") == 5 by { assert "5"[..0] == ""; }
    }
  }
}
