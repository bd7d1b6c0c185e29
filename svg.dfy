/**
 * The geometry of the SVG drawing of a comparison network. Wire i is a
 * horizontal line at y = 20 + 20 i; each comparator is a vertical segment
 * at some x between the y of its two wires. Comparators are placed left to
 * right in columns ("groups"): a comparator that shares a wire with one in
 * the current column opens a new column 35 to the right of everything in
 * it, and one whose span crosses a comparator already in the column is
 * moved 11 to the right of it. Only the integer coordinates are modelled,
 * not the SVG markup.
 */
module Layout {
  import opened Comparators
  import opened Networks

  const XScale: int := 35
  const YScale: int := 20
  /** The offset between crossing comparators of one column: `xScale / 3`, which is 11 in integer division. */
  const ShiftStep: int := 11

  /** The y coordinate of wire i. */
  function WireY(i: int): int {
    YScale + i * YScale
  }

  /** Lower wires are drawn lower: y grows with the wire index. */
  lemma WireYIncreasing(i: int, j: int)
    requires i < j
    ensures WireY(i) < WireY(j)
  {
  }

  /**
   * The span of one comparator strictly contains an input of the other:
   * drawn in the same column, their segments would overlap.
   */
  predicate Overlap(c: Comparator, other: Comparator) {
    (c.Input1() < other.Input1() && other.Input1() < c.Input2())
    || (c.Input1() < other.Input2() && other.Input2() < c.Input2())
    || (other.Input1() < c.Input1() && c.Input1() < other.Input2())
    || (other.Input1() < c.Input2() && c.Input2() < other.Input2())
  }

  /** The two comparators touch a common wire. */
  predicate HaveAnySameInput(c: Comparator, other: Comparator) {
    c.Input1() == other.Input1() || c.Input1() == other.Input2()
    || c.Input2() == other.Input1() || c.Input2() == other.Input2()
  }

  lemma OverlapSymmetric(c: Comparator, other: Comparator)
    ensures Overlap(c, other) <==> Overlap(other, c)
  {
  }

  lemma HaveAnySameInputSymmetric(c: Comparator, other: Comparator)
    ensures HaveAnySameInput(c, other) <==> HaveAnySameInput(other, c)
    ensures HaveAnySameInput(c, c)
  {
  }

  /** A comparator never overlaps itself. */
  lemma OverlapIrreflexive(c: Comparator)
    ensures !Overlap(c, c)
  {
  }

  /** Two comparators that must not be drawn at the same x. */
  predicate Conflict(c: Comparator, other: Comparator) {
    HaveAnySameInput(c, other) || Overlap(c, other)
  }

  // ---------------------------------------------------------------- one column

  /** A comparator of the current column and the x it was drawn at. */
  datatype Entry = Entry(c: Comparator, pos: int)

  /** Some comparator of the column shares a wire with c. */
  predicate SharesWith(group: seq<Entry>, c: Comparator) {
    exists k | 0 <= k < |group| :: HaveAnySameInput(c, group[k].c)
  }

  /** The largest of w and the positions in the column. */
  function GroupMax(group: seq<Entry>, w: int): (m: int)
    ensures m >= w
  {
    if |group| == 0 then w
    else
      var m := GroupMax(group[..|group| - 1], w);
      if group[|group| - 1].pos > m then group[|group| - 1].pos else m
  }

  /** GroupMax is at least every position, and is w or one of them. */
  lemma {:induction false} GroupMaxSpec(group: seq<Entry>, w: int)
    ensures forall k | 0 <= k < |group| :: group[k].pos <= GroupMax(group, w)
    ensures GroupMax(group, w) == w || exists k | 0 <= k < |group| :: group[k].pos == GroupMax(group, w)
  {
    if |group| > 0 {
      var init := group[..|group| - 1];
      GroupMaxSpec(init, w);
      assert forall k | 0 <= k < |init| :: init[k] == group[k];
    }
  }

  /**
   * The x of c in the column, visiting the column's comparators in the given
   * order: starting at w, every comparator that c overlaps and that sits at
   * or right of the current x pushes it to 11 past that comparator.
   */
  function Shift(group: seq<Entry>, c: Comparator, w: int): (cx: int)
    ensures cx >= w
  {
    if |group| == 0 then w
    else
      var cx := Shift(group[..|group| - 1], c, w);
      var e := group[|group| - 1];
      if e.pos >= cx && Overlap(c, e.c) then e.pos + ShiftStep else cx
  }

  /**
   * The shifted x lies right of every comparator of the column that c
   * overlaps, and is w or 11 past one of them.
   */
  lemma {:induction false} ShiftSpec(group: seq<Entry>, c: Comparator, w: int)
    ensures forall k | 0 <= k < |group| :: Overlap(c, group[k].c) ==> group[k].pos < Shift(group, c, w)
    ensures Shift(group, c, w) == w
      || exists k | 0 <= k < |group| :: Overlap(c, group[k].c) && Shift(group, c, w) == group[k].pos + ShiftStep
  {
    if |group| > 0 {
      var init := group[..|group| - 1];
      ShiftSpec(init, c, w);
      assert forall k | 0 <= k < |init| :: init[k] == group[k];
    }
  }

  /** Every position of the column is w plus a multiple of 11. */
  predicate OnGrid(group: seq<Entry>, w: int) {
    forall k | 0 <= k < |group| :: group[k].pos >= w && (group[k].pos - w) % ShiftStep == 0
  }

  /** The shifted x of a comparator lands on the column's grid too. */
  lemma ShiftOnGrid(group: seq<Entry>, c: Comparator, w: int)
    requires OnGrid(group, w)
    ensures var cx := Shift(group, c, w); cx >= w && (cx - w) % ShiftStep == 0
  {
    var cx := Shift(group, c, w);
    ShiftSpec(group, c, w);
    if cx != w {
      var k :| 0 <= k < |group| && Overlap(c, group[k].c) && cx == group[k].pos + ShiftStep;
      GridNext(group[k].pos, w);
    }
  }

  /** One step of 11 from a grid point is a grid point. */
  lemma GridNext(p: int, w: int)
    requires (p - w) % ShiftStep == 0
    ensures (p + ShiftStep - w) % ShiftStep == 0
  {
    var a := (p - w) / ShiftStep;
    assert p - w == ShiftStep * a;
    assert p + ShiftStep - w == ShiftStep * (a + 1);
  }

  /**
   * The order in which the column is visited does not change the result:
   * the Go map behind the column is iterated in an unspecified order, and
   * every order gives the same x.
   */
  lemma ShiftOrderIndependent(group: seq<Entry>, other: seq<Entry>, c: Comparator, w: int)
    requires OnGrid(group, w) && multiset(group) == multiset(other)
    ensures Shift(group, c, w) == Shift(other, c, w)
  {
    SameElements(group, other, w);
    ShiftBase(group, c, w);
    ShiftBase(other, c, w);
    SameOverlaps(group, other, c);
    if Shift(group, c, w) != w {
      ShiftSameOverlaps(group, other, c, w);
    }
  }

  /** Columns with the same entries overlap c in the same way. */
  lemma SameOverlaps(group: seq<Entry>, other: seq<Entry>, c: Comparator)
    requires forall e :: e in group <==> e in other
    ensures (forall k | 0 <= k < |group| :: !Overlap(c, group[k].c))
        <==> (forall k | 0 <= k < |other| :: !Overlap(c, other[k].c))
  {
    if forall k | 0 <= k < |group| :: !Overlap(c, group[k].c) {
      forall k | 0 <= k < |other| ensures !Overlap(c, other[k].c) {
        assert other[k] in group;
      }
    }
    if forall k | 0 <= k < |other| :: !Overlap(c, other[k].c) {
      forall k | 0 <= k < |group| ensures !Overlap(c, group[k].c) {
        assert group[k] in other;
      }
    }
  }

  /** Reorderings of a column hold the same entries, on the same grid. */
  lemma SameElements(group: seq<Entry>, other: seq<Entry>, w: int)
    requires OnGrid(group, w) && multiset(group) == multiset(other)
    ensures forall e :: e in group <==> e in other
    ensures OnGrid(other, w)
  {
    forall e | e in other ensures e in group {
      assert e in multiset(other);
    }
    forall e | e in group ensures e in other {
      assert e in multiset(group);
    }
    forall k | 0 <= k < |other| ensures other[k].pos >= w && (other[k].pos - w) % ShiftStep == 0 {
      assert other[k] in group;
    }
  }

  /** Both orders move c, each to 11 past an overlapped entry the other order also sees. */
  lemma ShiftSameOverlaps(group: seq<Entry>, other: seq<Entry>, c: Comparator, w: int)
    requires OnGrid(group, w) && OnGrid(other, w)
    requires forall e :: e in group <==> e in other
    requires Shift(group, c, w) != w && Shift(other, c, w) != w
    ensures Shift(group, c, w) == Shift(other, c, w)
  {
    var r1, r2 := Shift(group, c, w), Shift(other, c, w);
    ShiftSpec(group, c, w);
    ShiftSpec(other, c, w);
    var k1 :| 0 <= k1 < |group| && Overlap(c, group[k1].c) && r1 == group[k1].pos + ShiftStep;
    var k2 :| 0 <= k2 < |other| && Overlap(c, other[k2].c) && r2 == other[k2].pos + ShiftStep;
    assert group[k1] in other;
    assert other[k2] in group;
    GridClose(group[k1].pos, other[k2].pos, w);
  }

  /** On the grid, c stays at w exactly when it overlaps nothing in the column. */
  lemma ShiftBase(group: seq<Entry>, c: Comparator, w: int)
    requires OnGrid(group, w)
    ensures Shift(group, c, w) == w <==> forall k | 0 <= k < |group| :: !Overlap(c, group[k].c)
  {
    ShiftSpec(group, c, w);
  }

  /** Two grid points less than 11 apart are the same point. */
  lemma GridClose(p1: int, p2: int, w: int)
    requires (p1 - w) % ShiftStep == 0 && (p2 - w) % ShiftStep == 0
    requires p1 < p2 + ShiftStep && p2 < p1 + ShiftStep
    ensures p1 == p2
  {
    var a, b := (p1 - w) / ShiftStep, (p2 - w) / ShiftStep;
    assert p1 - w == ShiftStep * a;
    assert p2 - w == ShiftStep * b;
  }

  // ---------------------------------------------------------------- placing every comparator

  /** The layout after some comparators: current w, current column, the x of each. */
  datatype State = State(w: int, group: seq<Entry>, xs: seq<int>)

  /** One iteration of the placement loop. */
  function Step(s: State, c: Comparator): State {
    var newColumn := SharesWith(s.group, c);
    var w := if newColumn then GroupMax(s.group, s.w) + XScale else s.w;
    var group := if newColumn then [] else s.group;
    var cx := Shift(group, c, w);
    State(w, group + [Entry(c, cx)], s.xs + [cx])
  }

  /** The layout of a list of comparators, starting at w = 35 with an empty column. */
  function Placement(cs: seq<Comparator>): (s: State)
    ensures |s.xs| == |cs|
  {
    if |cs| == 0 then State(XScale, [], [])
    else Step(Placement(cs[..|cs| - 1]), cs[|cs| - 1])
  }

  /**
   * w never decreases, and a new column starts right of every comparator
   * of the column before it.
   */
  lemma StepOpensColumn(s: State, c: Comparator)
    ensures Step(s, c).w >= s.w
    ensures SharesWith(s.group, c) ==> forall k | 0 <= k < |s.group| :: s.group[k].pos < Step(s, c).w
    ensures !SharesWith(s.group, c) ==> Step(s, c).w == s.w
  {
    GroupMaxSpec(s.group, s.w);
  }

  /**
   * The shape of the layout: the column holds the last comparators placed,
   * at their x and on the grid of w; everything placed before it is left of w.
   */
  ghost predicate Columned(cs: seq<Comparator>, s: State) {
    && |s.xs| == |cs|
    && |s.group| <= |cs|
    && s.w >= XScale
    && OnGrid(s.group, s.w)
    && (forall i | 0 <= i < |s.group| ::
         s.group[i] == Entry(cs[|cs| - |s.group| + i], s.xs[|cs| - |s.group| + i]))
    && (forall k | 0 <= k < |cs| - |s.group| :: s.xs[k] < s.w)
    && (forall k | 0 <= k < |cs| :: s.xs[k] >= XScale)
  }

  /** No two comparators of a column share a wire. */
  ghost predicate Apart(group: seq<Entry>) {
    forall i, j | 0 <= i < j < |group| :: !HaveAnySameInput(group[i].c, group[j].c)
  }

  /** Comparators that share a wire or cross are drawn left to right. */
  ghost predicate Ordered(cs: seq<Comparator>, xs: seq<int>)
    requires |xs| == |cs|
  {
    forall j, k | 0 <= j < k < |cs| :: Conflict(cs[j], cs[k]) ==> xs[j] < xs[k]
  }

  /** What the placement keeps true after every comparator. */
  ghost predicate Laid(cs: seq<Comparator>, s: State) {
    Columned(cs, s) && Apart(s.group) && Ordered(cs, s.xs)
  }

  lemma {:induction false} PlacementLaid(cs: seq<Comparator>)
    ensures Laid(cs, Placement(cs))
  {
    if |cs| > 0 {
      var init, c := cs[..|cs| - 1], cs[|cs| - 1];
      assert init + [c] == cs;
      PlacementStep(init, c);
      PlacementLaid(init);
      StepLaid(init, Placement(init), c);
    }
  }

  /** The placement of a longer prefix is one more step. */
  lemma PlacementPrefix(cs: seq<Comparator>, i: int)
    requires 0 <= i < |cs|
    ensures Placement(cs[..i + 1]) == Step(Placement(cs[..i]), cs[i])
  {
    assert cs[..i + 1][..i] == cs[..i];
  }

  /** Placing one more comparator is one more step. */
  lemma PlacementStep(cs: seq<Comparator>, c: Comparator)
    ensures Placement(cs + [c]) == Step(Placement(cs), c)
  {
    assert (cs + [c])[..|cs|] == cs;
  }

  lemma StepLaid(cs: seq<Comparator>, s: State, c: Comparator)
    requires Laid(cs, s)
    ensures Laid(cs + [c], Step(s, c))
  {
    if SharesWith(s.group, c) {
      StepNewColumn(cs, s, c);
    } else {
      StepSameColumn(cs, s, c);
    }
    StepRightOfConflicts(cs, s, c);
    StepOrdered(cs, s, c);
  }

  /** A comparator sharing a wire with the column starts a new column right of all placed. */
  lemma StepNewColumn(cs: seq<Comparator>, s: State, c: Comparator)
    requires Columned(cs, s) && SharesWith(s.group, c)
    ensures Columned(cs + [c], Step(s, c)) && Apart(Step(s, c).group)
    ensures forall k | 0 <= k < |cs| :: s.xs[k] < Step(s, c).xs[|cs|]
  {
    var w := GroupMax(s.group, s.w) + XScale;
    GroupMaxSpec(s.group, s.w);
    var g := |cs| - |s.group|;
    forall k | 0 <= k < |cs| ensures s.xs[k] < w {
      if k >= g {
        assert s.group[k - g].pos == s.xs[k];
      }
    }
    assert Step(s, c) == State(w, [Entry(c, w)], s.xs + [w]);
  }

  /** Otherwise the comparator joins the column, on its grid, sharing no wire with it. */
  lemma StepSameColumn(cs: seq<Comparator>, s: State, c: Comparator)
    requires Columned(cs, s) && Apart(s.group) && !SharesWith(s.group, c)
    ensures Columned(cs + [c], Step(s, c)) && Apart(Step(s, c).group)
  {
    var cx := Shift(s.group, c, s.w);
    assert Step(s, c) == State(s.w, s.group + [Entry(c, cx)], s.xs + [cx]);
    JoinColumn(cs, s, c, cx);
    forall i | 0 <= i < |s.group| ensures !HaveAnySameInput(s.group[i].c, c) {
      HaveAnySameInputSymmetric(s.group[i].c, c);
    }
  }

  /** Appending c at a grid point of the column keeps the layout's shape. */
  lemma JoinColumn(cs: seq<Comparator>, s: State, c: Comparator, cx: int)
    requires Columned(cs, s) && cx == Shift(s.group, c, s.w)
    ensures Columned(cs + [c], State(s.w, s.group + [Entry(c, cx)], s.xs + [cx]))
  {
    ShiftOnGrid(s.group, c, s.w);
    var t := State(s.w, s.group + [Entry(c, cx)], s.xs + [cx]);
    var all := cs + [c];
    forall i | 0 <= i < |t.group|
      ensures t.group[i] == Entry(all[|all| - |t.group| + i], t.xs[|all| - |t.group| + i])
    {
      if i < |s.group| {
        assert t.group[i] == s.group[i];
      }
    }
  }

  /** The new comparator lies right of every placed comparator it conflicts with. */
  lemma StepRightOfConflicts(cs: seq<Comparator>, s: State, c: Comparator)
    requires Columned(cs, s)
    ensures forall j | 0 <= j < |cs| :: Conflict(cs[j], c) ==> s.xs[j] < Step(s, c).xs[|cs|]
  {
    if SharesWith(s.group, c) {
      StepNewColumn(cs, s, c);
    } else {
      var cx := Shift(s.group, c, s.w);
      ShiftSpec(s.group, c, s.w);
      assert Step(s, c).xs[|cs|] == cx;
      var g := |cs| - |s.group|;
      forall j | g <= j < |cs| && Conflict(cs[j], c) ensures s.xs[j] < cx {
        var e := s.group[j - g];
        assert e == Entry(cs[j], s.xs[j]);
        HaveAnySameInputSymmetric(cs[j], c);
        OverlapSymmetric(cs[j], c);
        assert !HaveAnySameInput(c, e.c);
      }
    }
  }

  lemma StepOrdered(cs: seq<Comparator>, s: State, c: Comparator)
    requires |s.xs| == |cs| && Ordered(cs, s.xs)
    requires forall j | 0 <= j < |cs| :: Conflict(cs[j], c) ==> s.xs[j] < Step(s, c).xs[|cs|]
    ensures Ordered(cs + [c], Step(s, c).xs)
  {
    var all := cs + [c];
    var xs := Step(s, c).xs;
    assert xs[..|cs|] == s.xs;
    forall j, k | 0 <= j < k < |all| && Conflict(all[j], all[k]) ensures xs[j] < xs[k] {
      if k < |cs| {
        assert all[j] == cs[j] && all[k] == cs[k];
        assert xs[j] == s.xs[j] && xs[k] == s.xs[k];
      }
    }
  }

  /** Every comparator lies at most at the largest position of the last column. */
  lemma PlacementWithinColumns(cs: seq<Comparator>)
    ensures var s := Placement(cs);
      forall k | 0 <= k < |cs| :: s.xs[k] <= GroupMax(s.group, s.w)
  {
    PlacementColumned(cs);
    WithinColumns(cs, Placement(cs));
  }

  lemma WithinColumns(cs: seq<Comparator>, s: State)
    requires Columned(cs, s)
    ensures forall k | 0 <= k < |cs| :: s.xs[k] <= GroupMax(s.group, s.w)
  {
    GroupMaxSpec(s.group, s.w);
    forall k | 0 <= k < |cs| ensures s.xs[k] <= GroupMax(s.group, s.w) {
      var g := |cs| - |s.group|;
      if k >= g {
        assert s.group[k - g].pos == s.xs[k];
      }
    }
  }

  // ---------------------------------------------------------------- the loops of Svg

  /** The first inner loop: is there a comparator in the column that shares a wire with c? */
  method GroupSharesInput(group: seq<Entry>, c: Comparator) returns (shares: bool)
    ensures shares == SharesWith(group, c)
  {
    for k := 0 to |group|
      invariant forall j | 0 <= j < k :: !HaveAnySameInput(c, group[j].c)
    {
      if HaveAnySameInput(c, group[k].c) {
        return true;
      }
    }
    return false;
  }

  /** The loop that widens w to the rightmost comparator of the column. */
  method MaxPosition(group: seq<Entry>, w0: int) returns (w: int)
    ensures w == GroupMax(group, w0)
  {
    w := w0;
    for k := 0 to |group|
      invariant w == GroupMax(group[..k], w0)
    {
      assert group[..k + 1][..k] == group[..k];
      if group[k].pos > w {
        w := group[k].pos;
      }
    }
    assert group[..|group|] == group;
  }

  /** The loop that moves c right of the comparators of the column it overlaps. */
  method ShiftedPosition(group: seq<Entry>, c: Comparator, w: int) returns (cx: int)
    ensures cx == Shift(group, c, w)
  {
    cx := w;
    for k := 0 to |group|
      invariant cx == Shift(group[..k], c, w)
    {
      assert group[..k + 1][..k] == group[..k];
      if group[k].pos >= cx && Overlap(c, group[k].c) {
        cx := group[k].pos + ShiftStep;
      }
    }
    assert group[..|group|] == group;
  }

  /** The two circles and the segment drawn for one comparator. */
  datatype Glyph = Glyph(cx: int, y0: int, y1: int)

  /** A horizontal wire line. */
  datatype Line = Line(x1: int, y1: int, x2: int, y2: int)

  /** The coordinates the SVG document is made of. */
  datatype Picture = Picture(width: int, height: int, glyphs: seq<Glyph>, lines: seq<Line>)

  /**
   * The comparator loop of Svg: places every comparator and draws it at
   * its x between the y of its two wires.
   */
  method PlaceComparators(cs: seq<Comparator>) returns (glyphs: seq<Glyph>, w: int, group: seq<Entry>)
    ensures w == Placement(cs).w && group == Placement(cs).group
    ensures |glyphs| == |cs|
    ensures forall k | 0 <= k < |cs| ::
      glyphs[k] == Glyph(Placement(cs).xs[k], WireY(cs[k].Input1()), WireY(cs[k].Input2()))
  {
    glyphs := [];
    w := XScale;
    group := [];
    ghost var xs: seq<int> := [];
    assert cs[..0] == [];
    for i := 0 to |cs|
      invariant Placement(cs[..i]) == State(w, group, xs)
      invariant |glyphs| == i == |xs|
      invariant forall k | 0 <= k < i :: glyphs[k] == Glyph(xs[k], WireY(cs[k].Input1()), WireY(cs[k].Input2()))
    {
      var c := cs[i];
      var cx;
      w, group, cx := PlaceOne(w, group, c, xs);
      glyphs := glyphs + [Glyph(cx, WireY(c.Input1()), WireY(c.Input2()))];
      xs := xs + [cx];
      PlacementPrefix(cs, i);
    }
    assert cs[..|cs|] == cs;
  }

  /**
   * The body of the comparator loop: open a new column when c shares a wire
   * with the current one, then shift c right of the comparators it crosses
   * and add it to the column.
   */
  method PlaceOne(w0: int, group0: seq<Entry>, c: Comparator, ghost xs: seq<int>)
    returns (w: int, group: seq<Entry>, cx: int)
    ensures Step(State(w0, group0, xs), c) == State(w, group, xs + [cx])
  {
    w, group := w0, group0;
    var shares := GroupSharesInput(group, c);
    if shares {
      w := MaxPosition(group, w);
      w := w + XScale;
      group := [];
    }
    cx := ShiftedPosition(group, c, w);
    group := group + [Entry(c, cx)];
  }

  /** The wire loop of Svg: n lines across the whole width. */
  method WireLines(n: int, width: int) returns (lines: seq<Line>)
    ensures |lines| == if n > 0 then n else 0
    ensures forall i | 0 <= i < |lines| :: lines[i] == Line(0, WireY(i), width, WireY(i))
  {
    lines := [];
    var i := 0;
    while i < n
      invariant 0 <= i && |lines| == i && (n > 0 ==> i <= n) && (n <= 0 ==> i == 0)
      invariant forall j | 0 <= j < i :: lines[j] == Line(0, WireY(j), width, WireY(j))
    {
      lines := lines + [Line(0, WireY(i), width, WireY(i))];
      i := i + 1;
    }
  }

  /**
   * Svg as written: n = MaxInput() + 1 wires and height (n + 1) * 20, each
   * comparator at its placed x, but the width is the last w plus 35, which
   * leaves out the comparators the last column shifted right of w.
   */
  method SvgAsWritten(cn: ComparisonNetwork) returns (p: Picture)
    ensures DrawnAsWritten(cn.comparators, MaxWire(cn.comparators) + 1, p)
  {
    var glyphs, w, group := PlaceComparators(cn.comparators);
    w := w + XScale;
    var maxInput := cn.MaxInput();
    var n := maxInput + 1;
    var lines := WireLines(n, w);
    p := Picture(w, (n + 1) * YScale, glyphs, lines);
  }

  /**
   * The drawing of a network: n = MaxInput() + 1 wires and height
   * (n + 1) * 20; each comparator drawn between its wires; the width reaches
   * 35 past the rightmost comparator, so every comparator is inside it.
   */
  method Svg(cn: ComparisonNetwork) returns (p: Picture)
    ensures Drawn(cn.comparators, MaxWire(cn.comparators) + 1, p)
  {
    var glyphs, w, group := PlaceComparators(cn.comparators);
    w := MaxPosition(group, w);
    w := w + XScale;
    var maxInput := cn.MaxInput();
    var n := maxInput + 1;
    var lines := WireLines(n, w);
    p := Picture(w, (n + 1) * YScale, glyphs, lines);
    DrawnPicture(cn.comparators, n, p);
  }

  /**
   * The width of the drawing: 35 past the rightmost comparator of the last
   * column (or past w when that column is further left). Every comparator
   * then has 35 of margin on its right.
   */
  function Width(cs: seq<Comparator>): (width: int)
    ensures forall k | 0 <= k < |cs| ::
      XScale <= Placement(cs).xs[k] && Placement(cs).xs[k] + XScale <= width
  {
    PlacementLaid(cs);
    PlacementWithinColumns(cs);
    GroupMax(Placement(cs).group, Placement(cs).w) + XScale
  }

  /**
   * What the two loops of Svg draw, whatever the width: height (n + 1) * 20,
   * each comparator at its placed x between the y of its two wires, and n
   * wire lines (none when n is not positive), line i at the y of wire i,
   * running from 0 to the width.
   */
  ghost predicate Sketched(cs: seq<Comparator>, n: int, p: Picture) {
    && p.height == (n + 1) * YScale
    && |p.glyphs| == |cs|
    && (forall k | 0 <= k < |cs| ::
         p.glyphs[k] == Glyph(Placement(cs).xs[k], WireY(cs[k].Input1()), WireY(cs[k].Input2())))
    && |p.lines| == (if n > 0 then n else 0)
    && (forall i | 0 <= i < |p.lines| :: p.lines[i] == Line(0, WireY(i), p.width, WireY(i)))
  }

  /** The picture of the comparators over n wires, with the full width. */
  ghost predicate Drawn(cs: seq<Comparator>, n: int, p: Picture) {
    && p.width == Width(cs)
    && Sketched(cs, n, p)
    && (forall k | 0 <= k < |cs| :: XScale <= p.glyphs[k].cx && p.glyphs[k].cx + XScale <= p.width)
  }

  /** The picture as Svg draws it: the width is the last column's w plus 35. */
  ghost predicate DrawnAsWritten(cs: seq<Comparator>, n: int, p: Picture) {
    && p.width == Placement(cs).w + XScale
    && Sketched(cs, n, p)
  }

  /** The glyphs and lines the loops produce make a drawing. */
  lemma DrawnPicture(cs: seq<Comparator>, n: int, p: Picture)
    requires p.width == Width(cs) && p.height == (n + 1) * YScale
    requires |p.glyphs| == |cs|
    requires forall k | 0 <= k < |cs| ::
      p.glyphs[k] == Glyph(Placement(cs).xs[k], WireY(cs[k].Input1()), WireY(cs[k].Input2()))
    requires |p.lines| == (if n > 0 then n else 0)
    requires forall i | 0 <= i < |p.lines| :: p.lines[i] == Line(0, WireY(i), p.width, WireY(i))
    ensures Drawn(cs, n, p)
  {
  }

  /**
   * In a drawing, comparators that share a wire or whose spans cross never
   * sit at the same x, and the one that comes first in the network is
   * drawn to the left.
   */
  lemma DrawnInOrder(cs: seq<Comparator>, n: int, p: Picture, j: int, k: int)
    requires Drawn(cs, n, p) && 0 <= j < k < |cs| && Conflict(cs[j], cs[k])
    ensures p.glyphs[j].cx < p.glyphs[k].cx
  {
    PlacementLaid(cs);
  }

  // ---------------------------------------------------------------- the clipped width

  /** Five nested comparators: 0:9, 1:8, 2:7, 3:6, 4:5. */
  function Nested(): (cs: seq<Comparator>)
    ensures |cs| == 5
    ensures forall j, k | 0 <= j < k < |cs| :: Overlap(cs[j], cs[k]) && !HaveAnySameInput(cs[j], cs[k])
  {
    seq(5, k => Comparator(k, 9 - k))
  }

  /**
   * Comparators that share no wire and each cross all before them stay in
   * the first column at w = 35, each shifted at least 11 past the one
   * before; from five of them on (Nested is one such network) the last is at
   * 79 or more, right of the width as written (35 + 35 = 70); Width covers
   * it with 35 to spare.
   */
  lemma WidthAsWrittenClips(cs: seq<Comparator>)
    requires |cs| >= 5
    requires forall j, k | 0 <= j < k < |cs| :: !HaveAnySameInput(cs[j], cs[k])
    requires forall k | 0 <= k < |cs| - 1 :: Overlap(cs[k], cs[k + 1])
    ensures Placement(cs).w + XScale == 70
    ensures Placement(cs).xs[|cs| - 1] >= 79
  {
    var s := Placement(cs);
    OneColumnGrid(cs, s);
    CrossingColumn(cs, s.xs);
  }

  /** The nested network of five comparators is drawn partly outside the width as written. */
  lemma NestedClipped()
    ensures Placement(Nested()).w + XScale == 70 && Placement(Nested()).xs[4] >= 79
  {
    WidthAsWrittenClips(Nested());
  }

  /** Five or more comparators each crossing the one before, drawn in order on the grid of 35. */
  lemma CrossingColumn(cs: seq<Comparator>, xs: seq<int>)
    requires |cs| >= 5 && SingleColumn(cs, xs)
    requires forall k | 0 <= k < |cs| - 1 :: Overlap(cs[k], cs[k + 1])
    ensures xs[|xs| - 1] >= 79
  {
    forall k | 0 <= k < |xs| - 1 ensures xs[k] < xs[k + 1] {
      assert Conflict(cs[k], cs[k + 1]);
    }
    GridSpread(xs, |xs| - 1);
    var m := |xs| - 1;
    assert ShiftStep * m >= 44 by {
      assert ShiftStep * m == 11 * m;
    }
  }

  /** xs places cs in one column: on the grid of 35, conflicting comparators in order. */
  ghost predicate SingleColumn(cs: seq<Comparator>, xs: seq<int>) {
    && |xs| == |cs|
    && (forall k | 0 <= k < |cs| :: xs[k] >= XScale && (xs[k] - XScale) % ShiftStep == 0)
    && Ordered(cs, xs)
  }

  /** Comparators that pairwise share no wire are laid out in one column. */
  lemma OneColumnGrid(cs: seq<Comparator>, s: State)
    requires forall j, k | 0 <= j < k < |cs| :: !HaveAnySameInput(cs[j], cs[k])
    requires s == Placement(cs)
    ensures s.w == XScale && SingleColumn(cs, s.xs)
  {
    OneColumn(cs);
    PlacementLaid(cs);
    ColumnGrid(cs, s);
  }

  lemma ColumnGrid(cs: seq<Comparator>, s: State)
    requires Columned(cs, s) && s.w == XScale && |s.group| == |cs|
    ensures forall k | 0 <= k < |cs| :: s.xs[k] >= XScale && (s.xs[k] - XScale) % ShiftStep == 0
  {
    forall k | 0 <= k < |cs| ensures s.xs[k] >= XScale && (s.xs[k] - XScale) % ShiftStep == 0 {
      assert s.group[k] == Entry(cs[k], s.xs[k]);
    }
  }

  /** Increasing points of the grid of 35 are 11 apart or more: the k-th is at least 35 + 11 k. */
  lemma {:induction false} GridSpread(xs: seq<int>, k: int)
    requires 0 <= k < |xs|
    requires forall i | 0 <= i < |xs| :: xs[i] >= XScale && (xs[i] - XScale) % ShiftStep == 0
    requires forall i | 0 <= i < k :: xs[i] < xs[i + 1]
    ensures xs[k] >= XScale + ShiftStep * k
  {
    if k > 0 {
      GridSpread(xs, k - 1);
      GridGap(xs[k - 1], xs[k], XScale);
    }
  }

  /** Comparators that pairwise share no wire are all placed in the first column. */
  lemma {:induction false} OneColumn(cs: seq<Comparator>)
    requires forall j, k | 0 <= j < k < |cs| :: !HaveAnySameInput(cs[j], cs[k])
    ensures Placement(cs).w == XScale && |Placement(cs).group| == |cs|
  {
    if |cs| > 0 {
      var init, c := cs[..|cs| - 1], cs[|cs| - 1];
      assert init + [c] == cs;
      OneColumn(init);
      var s := Placement(init);
      PlacementColumned(init);
      ColumnHolds(init, s);
      forall i | 0 <= i < |s.group| ensures !HaveAnySameInput(c, s.group[i].c) {
        HaveAnySameInputSymmetric(c, cs[i]);
      }
      PlacementStep(init, c);
    }
  }

  lemma PlacementColumned(cs: seq<Comparator>)
    ensures Columned(cs, Placement(cs))
  {
    PlacementLaid(cs);
  }

  /** A column holding every comparator placed holds them in order. */
  lemma ColumnHolds(cs: seq<Comparator>, s: State)
    requires Columned(cs, s) && |s.group| == |cs|
    ensures forall i | 0 <= i < |cs| :: s.group[i].c == cs[i]
  {
    forall i | 0 <= i < |cs| ensures s.group[i].c == cs[i] {
      assert s.group[i] == Entry(cs[i], s.xs[i]);
    }
  }

  /** Distinct grid points are at least 11 apart. */
  lemma GridGap(p1: int, p2: int, w: int)
    requires (p1 - w) % ShiftStep == 0 && (p2 - w) % ShiftStep == 0 && p1 < p2
    ensures p1 + ShiftStep <= p2
  {
    var a, b := (p1 - w) / ShiftStep, (p2 - w) / ShiftStep;
    assert p1 - w == ShiftStep * a;
    assert p2 - w == ShiftStep * b;
  }
}
