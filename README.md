# sorting-network-go in Dafny

A model of the comparison-network engine of sorting-network-go. The model covers:

- **Comparators.** A comparator is a compare-and-swap between two wires. It has an `"a:b"` text form and a parser for it.
- **Comparison networks.**
  - A network is an ordered list of comparators, read from lines of comma-separated tokens and printed back as one line.
  - The network can be run on the bits of a 64-bit word.
  - It can be checked with the zero-one principle: the network sorts every sequence of `n = MaxInput() + 1` integers iff it sorts every 0/1 word of `n` bits.
- **The SVG drawing.** Only its integer geometry is modelled:
  - the column ("group") in which each comparator is placed;
  - the x of each comparator, the y of its two wires;
  - the wire lines, the width and the height.
- **The older single-file program.** It repeats the engine with byte-wide wire indices. It also holds the sort of a sequence of values by a network, done on a copied array.

Files and modules:

| file | module | what it holds |
|---|---|---|
| `outcomes.dfy` | `Outcomes` | `Option` and `Result` |
| `gotext.dfy` | `GoText` | `strings.Split`, `strings.Join`, `strings.TrimSpace`, `strconv.Atoi` and `%d` formatting, on strings of code points |
| `bits.dfy` | `Bits` | powers of two, bit `i` of a word, XOR/OR, popcount, words as 0/1 sequences |
| `comparator.dfy` | `Comparators` | the comparator, `NewComparator`, `Parse`, and `Parse` exactly as written |
| `exchange.dfy` | `Exchange` | compare-and-swap on value sequences and on words, and the zero-one principle proved |
| `comparisonnetwork.dfy` | `Networks` | network `Parse`, `String`, `MaxInput`, `sortBinarySequence`, `IsSortingNetwork`: methods with loops, proved against specification functions |
| `svg.dfy` | `Layout` | the layout loops of `Svg`, the placement as a function, and its invariants |
| `legacy.dfy` | `Legacy` | the byte comparator reader, `sortSequence` on arrays, the drawing with a byte wire count |

The single-file program repeats several algorithms of the package. Each is modelled once, by the package's member:

- `overlaps` (sorting-network.go:65-70) by `Layout.Overlap`, with `Layout.OverlapSymmetric`;
- `hasSameInput` (sorting-network.go:72-77) by `Layout.HaveAnySameInput`, with `Layout.HaveAnySameInputSymmetric`;
- `getMaxInput` (sorting-network.go:159-167) by `Networks.ComparisonNetwork.MaxInput`;
- `sortBinarySequence` (sorting-network.go:125-136) by `Networks.ComparisonNetwork.SortBinarySequence`;
- `isSortingNetwork` (sorting-network.go:96-122) by `Networks.ComparisonNetwork.IsSortingNetwork`;
- the comparator loop of `svg` (sorting-network.go:174-212) by `Layout.PlaceComparators`.

Go's map of the current column is a `seq<Entry>` in insertion order. The only place its iteration order matters is the shift of a comparator within the column. `Layout.ShiftOrderIndependent` proves that every order of the same entries gives the same x.

## Model

| member | source | states |
|---|---|---|
| Comparators.Comparator.String | pkg/comparator/comparator.go:47-49 | the text splits at ':' into exactly two fields, the `%d` spellings of the two wires (a '-' only for a negative wire, no '+', no leading zero, see `GoText.Itoa`); it holds no space, comma or newline, so it is one token of a network line |
| GoText.Itoa | pkg/comparator/comparator.go:48 | `%d`: a '-' exactly for a negative value, then the decimal digits of its magnitude with no leading zero |
| Comparators.NewComparator | pkg/comparator/comparator.go:51-64 | equal inputs give the error and only they do; otherwise the first input is the smaller and the pair holds exactly the two given wires |
| Comparators.NewComparatorSymmetric | pkg/comparator/comparator.go:56-62 | the order in which the two wires are named does not change the result |
| Comparators.Parse | pkg/comparator/comparator.go:66-78 | a comparator read has its first input smaller and both in the 64-bit range; an invalid-comparator error names the token |
| Comparators.ParseMalformed | pkg/comparator/comparator.go:67-75 | a token whose first or second ':'-field is missing or not an integer is an invalid comparator |
| Comparators.ParseWellFormed | pkg/comparator/comparator.go:77 | two integer fields give exactly NewComparator's answer; the equal-inputs error occurs iff the two numbers are equal |
| Comparators.ParseIgnoresExtraFields | pkg/comparator/comparator.go:67-77 | fields after the second do not change the outcome |
| Comparators.ParseString | pkg/comparator/comparator.go:47-78 | parsing the text of a canonical comparator gives the same comparator back |
| Comparators.ParseAsWritten | pkg/comparator/comparator.go:66-78 | the code as written panics iff the token has no ':' and is an integer; otherwise it returns what Parse returns |
| Comparators.ParseAsWrittenPanics | pkg/comparator/comparator.go:72 | the token "5" panics as written, where an invalid-comparator error is due |
| Networks.Parse | pkg/comparisonnetwork/comparisonnetwork.go:37-54 | the nested loops return exactly the outcome of reading the tokens of the text in order and stopping at the first error |
| Networks.ParseLine | pkg/comparisonnetwork/comparisonnetwork.go:41-51 | the inner loop appends the comparators of one line to those read before, or returns the error of its first bad token |
| Networks.Collect | pkg/comparisonnetwork/comparisonnetwork.go:46-50 | reading succeeds iff every token is a comparator, with the values in order; otherwise the error is that of a token all of whose predecessors were read |
| Networks.CollectStopsAtError | pkg/comparisonnetwork/comparisonnetwork.go:47-49 | once a token fails, later tokens do not matter: no partial network is returned |
| Networks.ParseFailsAt | pkg/comparisonnetwork/comparisonnetwork.go:46-49 | a failure on some line is the outcome of the whole text |
| Networks.ParseLinesInOrder | pkg/comparisonnetwork/comparisonnetwork.go:39-51 | a text of two parts joined by a newline parses iff both parts do, to the first part's comparators followed by the second's |
| Networks.BlankLine | pkg/comparisonnetwork/comparisonnetwork.go:40-45 | a line of only white space contributes no token |
| Networks.TrailingComma | pkg/comparisonnetwork/comparisonnetwork.go:41-45 | a comma at the end of a line adds no token |
| Networks.ComparisonNetwork.String | pkg/comparisonnetwork/comparisonnetwork.go:56-62 | the loop builds the comparators' texts joined by ',' |
| Networks.TokensOfText | pkg/comparisonnetwork/comparisonnetwork.go:56-62 | the tokens read from a printed network are the comparators' texts, in order |
| Networks.ParseRoundTrip | pkg/comparisonnetwork/comparisonnetwork.go:37-62 | parsing the printed network gives back the same ordered comparators |
| Networks.MaxWire | pkg/comparisonnetwork/comparisonnetwork.go:64-72 | the result is non-negative, at least every second input, and is 0 or one of them |
| Networks.ComparisonNetwork.MaxInput | pkg/comparisonnetwork/comparisonnetwork.go:64-72 | the loop computes MaxWire |
| Networks.MaxWireCoversInputs | pkg/comparisonnetwork/comparisonnetwork.go:64-76 | for ordered, non-negative comparators every wire lies below MaxInput() + 1 |
| Networks.ComparisonNetwork.SortBinarySequence | pkg/comparisonnetwork/comparisonnetwork.go:103-115 | the loop computes the network on the word, stays below 2^64 and keeps the number of one bits |
| Networks.ComparisonNetwork.IsSortingNetwork | pkg/comparisonnetwork/comparisonnetwork.go:74-101 | the verdict is true iff every word below 2^n sorts to its ones-high form, and iff the network sorts every sequence of n integers |
| Networks.ComparisonNetwork.CheckWord | pkg/comparisonnetwork/comparisonnetwork.go:81-91 | the work of one goroutine: the word passes iff the network sorts it to its ones-high form |
| Networks.VerdictFalse | pkg/comparisonnetwork/comparisonnetwork.go:94-97 | one word that fails makes the network not a sorting network |
| Networks.VerdictTrue | pkg/comparisonnetwork/comparisonnetwork.go:100 | all words passing makes it one |
| Exchange.CompareSwap | sorting-network.go:143-145 | one comparator keeps the multiset, puts its two positions in order and leaves every other position alone |
| Exchange.Apply | sorting-network.go:142-146 | running the comparators keeps length and multiset, and the last comparator's positions end in order |
| Exchange.ApplyConcat | sorting-network.go:142-146 | running two lists of comparators one after the other is running their concatenation |
| Exchange.ApplySorted | sorting-network.go:139-148 | ordered comparators leave a sorted sequence as it is |
| Exchange.ApplyThreshold | pkg/comparisonnetwork/comparisonnetwork.go:74 | the network commutes with cutting values at a threshold into 0 and 1 |
| Exchange.CompareSwapBitsDecode | pkg/comparisonnetwork/comparisonnetwork.go:108-112 | the XOR swap of two bits is the compare-and-swap of the word's 0/1 sequence |
| Exchange.SortBinaryDecode | pkg/comparisonnetwork/comparisonnetwork.go:104-115 | the bitwise run of the network is the network run on the word's 0/1 sequence |
| Exchange.SortBinaryOnesCount | pkg/comparisonnetwork/comparisonnetwork.go:106-113 | the bitwise run keeps the number of one bits |
| Exchange.ExpectedClosedForm | pkg/comparisonnetwork/comparisonnetwork.go:84-89 | the expected word is (2^ones - 1) * 2^(n - ones), also when ones is 0 |
| Exchange.ExpectedDecode | pkg/comparisonnetwork/comparisonnetwork.go:84-89 | the expected word is below 2^n and is n - ones zeros followed by ones ones |
| Exchange.SortBinaryCheck | pkg/comparisonnetwork/comparisonnetwork.go:90 | the comparison with the expected word holds iff the network sorts the word's 0/1 sequence |
| Exchange.SortBinaryKeepsSorted | pkg/comparisonnetwork/comparisonnetwork.go:108-112 | ordered comparators leave an already sorted word unchanged |
| Exchange.SortedBinary | pkg/comparisonnetwork/comparisonnetwork.go:84-89 | a 0/1 sequence is sorted iff it is its zeros followed by its ones |
| Exchange.ZeroOnePrinciple | pkg/comparisonnetwork/comparisonnetwork.go:74-101 | sorting every word of n bits is equivalent to sorting every sequence of n integers |
| Exchange.SortsWhenWordsSort | pkg/comparisonnetwork/comparisonnetwork.go:74 | a network that sorts every word sorts any sequence of n integers |
| Bits.BitXor | pkg/comparisonnetwork/comparisonnetwork.go:111 | bit i of a XOR b is the sum of their bits i modulo 2, so the mask flips exactly its own bits |
| Bits.OnesCountDecode | pkg/comparisonnetwork/comparisonnetwork.go:82 | the popcount of a word is the number of ones in its 0/1 sequence, at most n |
| Layout.WireYIncreasing | pkg/comparisonnetwork/svg.go:66-67 | a lower wire index is drawn higher: y0 < y1 for an ordered comparator |
| Layout.OverlapSymmetric | pkg/comparisonnetwork/svg.go:97-102 | overlap is symmetric |
| Layout.OverlapIrreflexive | pkg/comparisonnetwork/svg.go:97-102 | no comparator overlaps itself |
| Layout.HaveAnySameInputSymmetric | pkg/comparisonnetwork/svg.go:104-109 | sharing an input is symmetric and holds between a comparator and itself |
| Layout.GroupSharesInput | pkg/comparisonnetwork/svg.go:44-45 | the loop finds whether some comparator of the column shares a wire with c |
| Layout.MaxPosition | pkg/comparisonnetwork/svg.go:46-50 | the loop computes the largest of w and the column's positions |
| Layout.GroupMaxSpec | pkg/comparisonnetwork/svg.go:46-51 | that maximum bounds every position of the column and is w or one of them |
| Layout.StepOpensColumn | pkg/comparisonnetwork/svg.go:44-55 | w never decreases; a new column starts right of every comparator of the old one; otherwise w stays |
| Layout.ShiftedPosition | pkg/comparisonnetwork/svg.go:58-63 | the loop computes the shifted x of c |
| Layout.ShiftSpec | pkg/comparisonnetwork/svg.go:58-63 | the shifted x lies right of every overlapped comparator of the column and is w or 11 past one of them |
| Layout.ShiftOnGrid | pkg/comparisonnetwork/svg.go:58-63 | the shifted x is w plus a multiple of 11 when the column is |
| Layout.ShiftOrderIndependent | pkg/comparisonnetwork/svg.go:59-63 | every iteration order of the column's map gives the same x |
| Layout.PlaceOne | pkg/comparisonnetwork/svg.go:41-74 | one iteration of the comparator loop is one step of the placement |
| Layout.PlaceComparators | pkg/comparisonnetwork/svg.go:38-75 | the loop ends with the placement's w and column and draws each comparator at its x, between the y of its wires |
| Layout.PlacementLaid | pkg/comparisonnetwork/svg.go:38-75 | after every comparator the column holds the latest comparators; no two of them share a wire; everything earlier is left of w; conflicting comparators are drawn left to right |
| Layout.PlacementWithinColumns | pkg/comparisonnetwork/svg.go:38-75 | every comparator lies at or left of the largest position of the last column |
| Layout.OneColumn | pkg/comparisonnetwork/svg.go:43-55 | comparators that pairwise share no wire all stay in the first column |
| Layout.WireLines | pkg/comparisonnetwork/svg.go:81-84 | n lines (none when n is not positive), line i at y = 20 + 20 i, from 0 to the width |
| Layout.Width | pkg/comparisonnetwork/svg.go:79 | every comparator lies at least 35 from the left edge and at least 35 from the right edge |
| Layout.Svg | pkg/comparisonnetwork/svg.go:32-95 | the picture has MaxInput() + 1 wire lines, height (MaxInput() + 2) * 20, each comparator at its placed x between its wires, all inside the width |
| Layout.DrawnInOrder | pkg/comparisonnetwork/svg.go:38-75 | in a drawing, comparators that share a wire or cross are at different x, the earlier one to the left |
| Layout.SvgAsWritten | pkg/comparisonnetwork/svg.go:32-95 | as written: MaxInput() + 1 wire lines, line i at y = 20 + 20 i running from 0 to the width, height (MaxInput() + 2) * 20, each comparator at its placed x between the y of its two wires, and the width the last column's w plus 35 |
| Layout.WidthAsWrittenClips | pkg/comparisonnetwork/svg.go:79 | five or more comparators that share no wire and each cross the one before give a width of 70 as written, with the last comparator at 79 or more |
| Layout.NestedClipped | pkg/comparisonnetwork/svg.go:79 | the network 0:9,1:8,2:7,3:6,4:5 is drawn partly outside the width as written |
| Legacy.NewByteComparator | sorting-network.go:43-63 | the smaller number goes first and both are cut to a byte; the two numbers modulo 256 are kept; in byte range the pair is ordered and exact; equal inputs give equal wires |
| Legacy.EqualInputsAccepted | sorting-network.go:55-61 | "a:a" gives the comparator a:a instead of an error |
| Legacy.TruncationUnorders | sorting-network.go:56-57 | a first wire below 256 with a second from 256 to 511 gives the second minus 256, which can put the larger wire first |
| Legacy.TruncationExample | sorting-network.go:56-57 | "255:256" gives the comparator 255:0 |
| Legacy.NewCheckedByteComparator | sorting-network.go:43-63 | a wire outside 0 .. 255 is refused; every comparator read holds the two wires named, the smaller first |
| Legacy.SortSequence | sorting-network.go:139-148 | the result is a new array holding the network applied to the argument, a permutation of it |
| Legacy.SortedBySortingNetwork | sorting-network.go:139-148 | a network that passes the zero-one check sorts every sequence of values |
| Legacy.Svg | sorting-network.go:169-229 | as written: the package's placement, the width the last column's w plus 35, and the wire count computed in a byte: Byte(getMaxInput() + 1) lines, height (that count + 1) * 20 |
| Legacy.WireCountWraps | sorting-network.go:217-223 | a network that uses wire 255 is drawn with no wire line and height 20, where 256 lines and height 5140 are due |

## Left out

- I/O is not modelled: `main` of `sorting-network.go` and `cmd/sortingnetwork/sortingnetwork.go` (flags, reading a file or standard input, printing).
- newComparisonNetwork of `sorting-network.go` is left out, because it reads a file through a scanner. It splits each line on ',' without trimming, so a space after a comma reaches `newComparator`, which stops the program.
- stringToNumberSequence is left out: it is only called by `main`, with the `-sort` argument.
- The goroutines and the channel of `IsSortingNetwork`/`isSortingNetwork` are not modelled. The check is a sequential loop over the words, with the same verdict. The goroutines left blocked after an early `false` are not modelled.
- The SVG markup (the text built by `fmt.Sprintf`) is not modelled, only its numbers: width, height, each comparator's x and two y, each wire line's ends.
- `comparisonnetwork.Sort`, called by the command-line program, is not part of this model. The sort of a sequence of values is modelled from `sortSequence`.
- Go's `int64` values are Dafny integers. `strconv.Atoi` refuses numbers outside the 64-bit range, as in Go. Sequences given to `SortSequence` hold unbounded integers.
- Strings are sequences of code points. Go's strings are UTF-8 bytes, which gives the same result for `Split`, `Join`, `TrimSpace` and `Atoi` on valid UTF-8.
- Networks.ComparisonNetwork.IsSortingNetwork: requires every wire to lie in 0 .. MaxInput() and fewer than 64 wires. With 64 or more wires, `1 << numberOfInputs` overflows the unsigned word. A negative wire makes Go's shift panic. In `sorting-network.go`, a byte comparator left by truncation with its first wire the larger ("10:260" is read as 10:4) has a wire at or above getMaxInput() + 1, outside the word that is checked, so the check as written passes or fails without that wire; that case is not modelled.
- Networks.ComparisonNetwork.SortBinarySequence: requires a word below 2^64 and wires below 64. Go's shifts by 64 or more give 0 and are not modelled.
- Legacy.NewByteComparator: requires a token whose first two fields are integers. In Go, any other token ends the program (`log.Fatalf`) or panics on the missing field.
- Legacy.SortSequence: requires every wire below the length of the sequence. Go panics on an index out of range otherwise.
- The single-file `isSortingNetwork` computes `numberOfInputs`, `onesCount` and `zerosCount` in bytes. Under the precondition of fewer than 64 wires these do not wrap, so the model is the package's check.

## Findings

| source | as written | input that shows it | evidently intended | confidence | as-written member | corrected member |
|---|---|---|---|---|---|---|
| pkg/comparator/comparator.go:72 | `inputs[1]` is read without checking that the token had a ':' | the token "5" (e.g. the network text "5") | an invalid-comparator error | not executed; high | Comparators.ParseAsWritten, Comparators.ParseAsWrittenPanics | Comparators.Parse |
| sorting-network.go:54-61 | wires are ordered as ints, then cut to a byte | "255:256" gives 255:0, first wire the larger | wires outside 0 .. 255 refused; the smaller wire first | not executed; high | Legacy.NewByteComparator, Legacy.TruncationExample | Legacy.NewCheckedByteComparator |
| pkg/comparisonnetwork/svg.go:79 | the width is the last column's w plus 35, ignoring comparators shifted right within that column (the same at sorting-network.go:216) | 0:9,1:8,2:7,3:6,4:5: width 70, last comparator at x = 79 | width 35 past the rightmost comparator | not executed; medium | Layout.SvgAsWritten, Legacy.Svg, Layout.WidthAsWrittenClips, Layout.NestedClipped | Layout.Width, Layout.Svg |
| sorting-network.go:217 | `n := int(cn.getMaxInput() + 1)` adds in a byte | any network using wire 255: n = 0, no wire line, height 20 | 256 wires, height 5140 | not executed; high | Legacy.Svg, Legacy.WireCountWraps | Layout.Svg |
