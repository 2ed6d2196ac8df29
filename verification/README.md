# libenigma: a verified model

A Dafny model of the parts of libenigma whose correctness is not obvious from reading them: the
exact number printing, text decoding, output buffers and format strings of the bundled fmt 11,
and the library's own log rotation, event bus and thread pool.
`dafny verify dfyconfig.toml` checks the whole project.

## What is modelled

**Exact number printing.** `Bigints` is the array bigint with its base-2^32 exponent, on machine
integers with every truncation written out; its values are defined in `Bigits`, and `Squares`
shows that the column sums of a square add up. `Dragon` (setup and the shortest mode),
`FixedDigits` (a given number of digits) and `DragonFormat` (the whole routine) model the Steele &
White digit generator on those bigints. Its results are stated on real numbers in `Shortest` and
`Rounding`, without reference to numerators and denominators: a shortest and closest decimal of
the rounding interval, and correct rounding, half to even. `DragonLimits` and `LowerEnds` say
exactly where the stored exponents of the bigints make a difference, and `DragonMisses` runs the
routine on values for which they do. `Subsegments` is the fast path that prints up to
eighteen digits of a 19-digit segment by fixed-point multiplication, `TrailingZeros` the removal
of zeros by modular inverses, `Decimals` the digit counts, and writing and reading integers,
`Grouping` the thousands separators. `Powers`, `Rationals` and `DigitStrings` hold the arithmetic
they share.

**Text.** `Utf8` is the branchless decoder on bit-vectors and the blocked iteration over a string
(RFC 3629); `Utf16` the two conversions (RFC 2781); `Buffers` the chunked buffers behind
size-limited formatting; `FormatStrings` the run-time parser and the compiler to a tree.

**Stateful code.** `LogRotation` is the file sink over a directory of indexed files. `EventBuses`
and `ThreadPools` are the objects and what one call does; `EventRuns` and `ThreadPoolRuns` are
their threads as a system of steps that interleave freely, with invariants over every run. Both
use the queue of `SyncQueues`.

## What the proofs brought to light

- `compare` takes equal bigints stored with different exponents for different, and says which by
  their length (`Bigints.Bigint.Compare`). The comment on the class gives the base as 32^exp, the
  code means (2^32)^exp.
- Because of that the shortest mode can misjudge the lower end of the rounding interval. By the
  comments at its two tests both ends belong to it for even significands and neither for odd ones;
  `LowerEnds.DocumentedShortest` says, for every significand and exponent, exactly when a shortest
  decimal of that interval is printed. The end of an even significand can be left out: for
  8344650268554688 * 2^32, a double, 17 digits are printed although the end has four
  (`DragonMisses.PrintBoundary`). The end of an odd one with more than 69 bits can be printed
  (`DragonMisses.PrintOddBoundary`). At run time doubles do not come to the shortest mode of this
  routine, only `long double` does, and doubles in constant evaluation.
- Because of that, too, a value that is one digit at the estimated place can come out with a
  needless zero behind it (`DragonMisses.PrintTwoTens`). That takes an estimate that `format_float`
  does not make for it (`LowerEnds.EstimatedNoZero`), and it removes trailing zeros for most formats.
- Because of that, too, `divmod_assign` overlooks an equal divisor, and 5^31 * 2^31 in a fixed
  number of digits comes out with a character that is no digit (`DragonLimits.PrintTen`). That
  takes an unnormalized significand: the values of floating-point types with up to 64 bits or 113
  bits are safe (`DragonLimits.FloatingTypeFixed`).
- In a given number of digits the first one is zero for a value just below a power of ten, because
  the place of the first digit is chosen by the upper end of the interval
  (`Rounding.RoundedReaches`, and `DragonMisses.PrintBelowTen` for a `long double`).
- The 64-bit `remove_trailing_zeros` truncates a quotient by 10^8 of more than 32 bits
  (`TrailingZeros.QuotientTruncated`).
- `parse_nonnegative_int` takes more than ten digits for an overflow even if zeros lead them
  (`Decimals.ZerosOverflow`).
- The format-string compiler accepts a lone `}`, drops the character behind it, and so accepts
  strings that the run-time parser rejects.
- With `max_file_count` one and older files there, rotation keeps the older files and loses the
  newest text (`LogRotation.SingleFileLoses`). `Init` fails when it had to create the directory.
- A callback that publishes takes handler and bus mutex in the opposite order of a publication. While
  its handler is subscribed it never returns (`EventRuns.OwnPublication`, `EventRuns.CallbackPublishes`).

## Model

| member | source | states |
|---|---|---|
| Bigints.Bigint.Multiply | include/fmt/format.h:2554-2563 | the value is multiplied exactly by a 32-bit number, the exponent stays |
| Bigints.Bigint.MultiplyWide | include/fmt/format.h:2565-2584 | the same for 64- and 128-bit factors, multiplied in halves with wrap-around arithmetic |
| Bigints.Bigint.Assign | include/fmt/format.h:2586-2596 | the value is the number assigned, without leading zero bigits |
| Bigints.ShiftBigits | include/fmt/format.h:2625-2633 | the bigits shifted by less than a bigit, with the last carry, are the exact product; a nonzero top stays nonzero |
| Bigints.Bigint.ShiftLeft | include/fmt/format.h:2622-2635 | the value is multiplied by a power of two; whole bigits go to the exponent |
| Bigints.Bigint.Compare | include/fmt/format.h:2643-2656 | the sign of the difference for normalized operands; for equal values the sign of the difference in stored bigits |
| Bigints.Bigint.AddCompare | include/fmt/format.h:2658-2676 | the sign of lhs1 + lhs2 - rhs for all alignments, without forming the sum |
| Bigints.Bigint.SubtractAligned | include/fmt/format.h:2529-2552 | exact subtraction although the borrow is passed up only one bigit, given at most one more bigit than the subtrahend has |
| Bigints.Bigint.Align | include/fmt/format.h:2724-2735 | the value and the number of bigits including the exponent stay, the exponent becomes the smaller one |
| Bigints.Bigint.DivmodAssign | include/fmt/format.h:2737-2750 | Euclidean division by repeated subtraction, and exactly when it is not: equal operands of which this one has the larger exponent |
| Squares.SquareByColumns | include/fmt/format.h:2696-2722 | the sums of the products of equal index sum, weighted by the base, are the square |
| Bigints.SquareBigits | include/fmt/format.h:2696-2722 | the two column loops with a 128-bit accumulator give the exact square in twice the bigits, with no carry left |
| Bigints.Bigint.Square | include/fmt/format.h:2696-2722 | the value is squared and the exponent doubled |
| Bigints.Bigint.AssignPow10 | include/fmt/format.h:2678-2694 | repeated squaring, multiplying by five and one shift leave exactly 10^n |
| Bigints.LongerIsLarger | include/fmt/format.h:2643-2645 | more bigits without a leading zero mean a larger value, whatever the exponents |
| Bigints.AtMostOneLonger | include/fmt/format.h:2542-2552 | below 2^32 times the divisor a dividend is at most one bigit longer, so that the single borrow step is enough |
| Dragon.SettingDescribes | include/fmt/format.h:2774-2811 | in all three setups numerator, lower and upper over the denominator are the value and the two distances, at the decimal exponent |
| Dragon.Setup | include/fmt/format.h:2766-2812 | the bigints built hold those numbers, with the exponents they are stored with |
| Dragon.NextDigit | include/fmt/format.h:2830-2835 | one division step, and exactly what the tests of both ends decide: by value, but for equal numbers stored differently and a zero stored too high |
| Dragon.ShortestDigits | include/fmt/format.h:2826-2854 | the loop ends; the digits have no leading zero and are shortest and closest in the interval with the lower end as the stored exponents have it, unless the first digit leaves a zero that is missed; then they are that digit and a zero |
| Dragon.DigitFits | include/fmt/format.h:2830-2849 | no digit exceeds nine, and none that can be bumped is nine |
| Dragon.NoneThisLong | include/fmt/format.h:2831-2853 | going on is right: no decimal of this length is in the interval |
| Dragon.Stopped | include/fmt/format.h:2837-2848 | stopping is right: the digits, bumped by the rule of the code, are in the interval and the closest of their length |
| Shortest.SignificantDigits | include/fmt/format.h:2826-2854 | no decimal of the interval has fewer significant digits than the ones printed |
| Shortest.ShortestAtReal | include/fmt/format.h:2826-2854 | the integer conditions the loop establishes mean a shortest and closest decimal of the real interval, ties to even |
| FixedDigits.GenerateDigits | include/fmt/format.h:2869-2895 | the digits, with the carry, are the quotient rounded half to even; they are decimal digits unless the division of an equal number was overlooked |
| FixedDigits.GeneratedStep | include/fmt/format.h:2870-2874 | every digit taken out keeps value, bound and the exact condition under which a ten appears |
| Rounding.PropagateCarry | include/fmt/format.h:2877-2891 | the carry keeps the number and leaves decimal digits; a carry out of the first place becomes one more digit or one more in the exponent |
| Rounding.NearestIsRounded | include/fmt/format.h:2875-2877 | rounding of the quotient is rounding of the real value at the last place |
| Rounding.RoundedUnique | include/fmt/format.h:2875-2877 | there is only one correctly rounded result, so the fixed mode and the fast path determine theirs |
| DragonFormat.Fixup | include/fmt/format.h:2815-2823 | the estimate is lowered exactly if the upper end does not reach the power of ten |
| DragonFormat.StoredAbove | include/fmt/format.h:2774-2831 | a numerator stored above the lower distance is so by one bigit, and one multiplication by ten makes up for it |
| DragonFormat.MissedZero | include/fmt/format.h:2830-2834 | a zero is missed exactly if the value is one digit at the estimated place and the numerator is stored above the lower distance |
| Rounding.RoundedReaches | include/fmt/format.h:2815-2895 | the first of a given number of digits is not zero exactly if the value reaches the place, or misses it by no more than rounding makes up for |
| DragonFormat.FormatDragon | include/fmt/format.h:2763-2895 | the whole routine on real values: shortest mode with its one exception, fixed mode for any number of digits with the exact length and exponent of the rounded text and its leading zero, and the error, from the flags and an estimate at most one too high; even is the parity of the significand |
| DragonLimits.LowerEndExact | include/fmt/format.h:2831 | for fractions and values shifted by less than a bigit the lower end is compared exactly |
| LowerEnds.DocumentedShortest | include/fmt/format.h:2826-2854 | for every significand and exponent: a shortest decimal of the documented interval is printed exactly if no needless zero follows and the lower end is judged right or is not the best choice |
| LowerEnds.WinnerTaken | include/fmt/format.h:2831 | a lower end taken for inside that is the best choice is what is printed |
| LowerEnds.TakenWins | include/fmt/format.h:2831 | a lower end that is printed is the best choice: a multiple of the least power of ten above twice its distance, better than its neighbour |
| LowerEnds.LoserIgnored | include/fmt/format.h:2831 | leaving out a lower end that is not the best choice makes no difference |
| LowerEnds.SmallSignificandShortest | include/fmt/format.h:2826-2854 | up to 69 bits odd significands are always right, and even ones exactly if the end is compared exactly or is not the best choice |
| LowerEnds.EstimatedNoZero | include/fmt/format.h:3017-3028 | with the estimate made from the highest power of two no value of a floating-point type gets a needless zero |
| LowerEnds.EstimateFits | include/fmt/format.h:3020-3027 | that estimate is exact or one too high |
| LowerEnds.FormatShortest | include/fmt/format.h:3262-3280 | the call with that estimate, for all values of floating-point types: shortest in the documented interval exactly if the lower end is judged right or is not the best choice |
| DragonMisses.LowerEndMissed | include/fmt/format.h:2831 | an even significand whose lower end, a decimal of four digits, is left out: what is printed has 17 digits |
| DragonMisses.LowerEndPrinted | include/fmt/format.h:2831 | an odd significand whose lower end is printed although it is outside |
| DragonMisses.PrintBoundary | include/fmt/format.h:2763-2854 | the whole routine, as it is called, prints 35840000000000002 for that double |
| DragonMisses.PrintOddBoundary | include/fmt/format.h:2763-2854 | the whole routine prints 11200000000061, the end of that interval |
| DragonMisses.PrintThirteen | include/fmt/format.h:2812-2854 | the whole routine, as it is called, prints an even significand that is no multiple of four, whose upper end is 13 * 10^26, as 13 |
| DragonMisses.PrintTwoTens | include/fmt/format.h:2763-2854 | from an exact estimate the whole routine prints 2 * 10^43 as "20" |
| DragonMisses.PrintBelowTen | include/fmt/format.h:2763-2895 | the whole routine, as it is called, prints the 64-bit significand nearest to 10^28 in 25 digits with a zero in front |
| DragonLimits.FloatingTypeFixed | include/fmt/format.h:2869-2895 | for the values of floating-point types the fixed mode writes decimal digits only |
| DragonLimits.TenOverlooked | include/fmt/format.h:2739-2741 | whatever the fixed mode prints for 5^31 * 2^31 in two or more digits is not all decimal digits |
| DragonLimits.PrintTen | include/fmt/format.h:2763-2895 | the whole routine prints that number with a character that is no digit, although the weights of the characters add up to the correctly rounded value |
| TrailingZeros.RotateTest | include/fmt/format-inl.h:1159-1163 | the test after multiplying by the inverse and rotating holds exactly for multiples, and gives the quotient |
| TrailingZeros.RemoveTrailingZeros32 | include/fmt/format-inl.h:1153-1171 | all trailing zeros are removed and counted |
| TrailingZeros.EighthTest | include/fmt/format-inl.h:1177-1184 | the test of the 128-bit product holds exactly for multiples of 10^8, and its high bits are the quotient |
| TrailingZeros.RemovePairs64 | include/fmt/format-inl.h:1192-1208 | the 64-bit loop removes and counts all trailing zeros |
| TrailingZeros.RemoveTrailingZeros64 | include/fmt/format-inl.h:1174-1209 | the same for 64 bits exactly if the quotient by 10^8 is not truncated; otherwise the zeros of the truncated quotient |
| TrailingZeros.QuotientTruncated | include/fmt/format-inl.h:1182-1186 | a number for which the truncated quotient gives a wrong result |
| Subsegments.PrintSubsegment | include/fmt/format.h:3130-3166 | exactly the leading digits of the nine, with a fraction that tracks what is left with a constant error below one unit |
| Subsegments.SplitFraction | include/fmt/format.h:3138-3164 | each split keeps the error while integer part and fraction become quotient and remainder |
| Subsegments.ThresholdTest | include/fmt/format.h:2984-2992 | the tabulated thresholds decide exactly whether more than half, and the top bit whether at least half, is left |
| Subsegments.FirstDivision | include/fmt/format.h:3113-3122 | the multiplication by ceil(2^96 / 10^10) divides exactly |
| Subsegments.SecondDivision | include/fmt/format.h:3207-3217 | the multiplication by ceil(2^64 / 10) divides exactly, and the wrapped difference is the last digit |
| Subsegments.PrintFirst | include/fmt/format.h:3168-3205 | up to nine digits, and whether all that follows rounds them up |
| Subsegments.PrintBoth | include/fmt/format.h:3207-3245 | ten to eighteen digits, and whether all that follows rounds them up |
| Subsegments.PrintSegment | include/fmt/format.h:3090-3263 | the whole fast path is correct rounding, half to even, of the segment and the unknown rest behind it, without a leading zero and in exactly as many digits as asked for, one more or one higher in the exponent exactly at a carry out of the first |
| Decimals.HasDigitsUnique | include/fmt/format.h:1056-1064 | the number of digits is unique, so that all ways of counting agree |
| Decimals.CountDigitsFallback | include/fmt/format.h:1015-1028 | the loop in groups of four counts the decimal digits |
| Decimals.DoCountDigits64 | include/fmt/format.h:1038-1053 | the table indexed by the highest bit counts the decimal digits of every 64-bit number |
| Decimals.DoCountDigits32 | include/fmt/format.h:1085-1104 | the carry of the tabulated increment counts the decimal digits of every 32-bit number |
| Decimals.DoFormatDecimal | include/fmt/format.h:1181-1200 | exactly the decimal digits are written, at the end of the given size, and nothing else is touched |
| Decimals.ParseNonnegativeInt | include/fmt/base.h:1289-1312 | all leading digits are read; the value for up to nine digits or ten that fit an int, despite wrap-around, and the error value otherwise |
| Decimals.NoLeadingZeroParsed | include/fmt/base.h:1289-1312 | without a leading zero the value is returned exactly if it fits an int |
| Decimals.ParsedRight | include/fmt/base.h:1304-1312 | the number, or the error if it does not fit, is returned exactly for up to ten digits or numbers that do not fit |
| Decimals.ZerosOverflow | include/fmt/base.h:1304-1312 | one, with ten zeros in front of it, is an error |
| Decimals.WrittenIsRead | include/fmt/base.h:1289-1312 | what is written for an int is read back, whatever other text follows |
| Grouping.Next | include/fmt/format.h:1835-1843 | the next cumulative sum of the groups, the last repeated, or none |
| Grouping.CountSeparators | include/fmt/format.h:1859-1864 | exactly the positions below the number of digits are counted |
| Grouping.Apply | include/fmt/format.h:1866-1887 | a separator stands in front of a digit exactly if the number of digits from there is a cumulative sum |
| Grouping.PositionMeans | include/fmt/format.h:1835-1843 | the j-th separator is behind the first j groups, and behind multiples of the last once they are used up |
| Grouping.SeparatedMeans | include/fmt/format.h:1835-1843 | a separator belongs exactly behind some number of groups whose sizes are all from 1 to 126 |
| Grouping.SeparatorStands | include/fmt/format.h:1866-1887 | between any two digits of the result there is a separator exactly if one belongs there, and nothing else |
| Grouping.MillionGrouped | include/fmt/format.h:1866-1887 | 1234567 in groups of three is 1,234,567 |
| Grouping.GroupedErased | include/fmt/format.h:1866-1887 | without the separators the digits are unchanged |
| Grouping.AppliedLength | include/fmt/format.h:1859-1887 | as many separators are written as are counted |
| Utf8.DecodeSound | include/fmt/format.h:555-589 | without an error four bytes start with the encoding of the code point returned, of the length returned |
| Utf8.DecodeComplete | include/fmt/format.h:555-589 | the encoding of every code point decodes to it without an error |
| Utf8.OctetsDecoded | include/fmt/format.h:555-589 | there is no error exactly for bytes of the syntax of RFC 3629, and then their number and value |
| Utf8.OctetsEncoded | include/fmt/format.h:1325-1338 | every code point but the surrogates is encoded by as many bytes of that syntax as its value needs, and they have its value |
| Utf8.ExamplesEncoded | include/fmt/format.h:1325-1338 | two of the examples of RFC 3629 |
| Utf8.StepMeaning | include/fmt/format.h:598-605 | a view carries the code point encoded there, and the invalid one and a single byte exactly if there is none |
| Utf8.ForEachCodepoint | include/fmt/format.h:597-629 | blocks of four and a padded tail give the calls of decoding step by step, up to the first stop |
| Utf8.RunStops | include/fmt/format.h:597-629 | with a callback that stops the calls are those of the whole run up to the first stop |
| Utf8.RunCovers | include/fmt/format.h:597-629 | the views are nonempty, in order, and together the string |
| Utf8.RunOfEncoded | include/fmt/format.h:597-629 | encoded text gives one call for each of its code points |
| Utf16.Convert | include/fmt/format.h:1308-1344 | succeeds exactly if replacing or well-formed, and gives the UTF-8 of the code points with unpaired surrogates replaced |
| Utf16.OneReplacementEach | include/fmt/format.h:1318-1323 | there is exactly one replacement character for every unpaired surrogate |
| Utf16.PairMeans | include/fmt/format.h:1322 | the value of a surrogate pair is 0x10000 + (high - 0xd800) * 0x400 + (low - 0xdc00), ten bits each |
| Utf16.UnitsMean | include/fmt/format-inl.h:1414-1420 | the units of a code point are itself, or a high and a low surrogate of that value |
| Utf16.ItemsMean | include/fmt/format.h:1311-1324 | the items of a string are the only code points and single surrogates, none at the start of a pair, that it is made of |
| Utf16.ItemsScalar | include/fmt/format.h:1308-1344 | what is written encodes scalar values only, so that it is well-formed UTF-8 |
| Utf16.Utf8ToUtf16 | include/fmt/format-inl.h:1411-1424 | valid UTF-8 gives the units of its code points; the exception is thrown exactly for text that encodes no code points |
| Utf16.UnitsOfItems | include/fmt/format.h:1308-1344 | the code points read from well-formed UTF-16 are written as the same units |
| Utf16.ItemsOfUnits | include/fmt/format-inl.h:1411-1424 | the units written are well-formed and mean the code points they were written for |
| Utf16.RoundTrip | include/fmt/format-inl.h:1411-1424 | well-formed UTF-16 comes back from UTF-8 unchanged |
| Buffers.Buffer.Flush | include/fmt/base.h:1882-1924 | the elements within the limit reach the output, all are counted, and there is room again |
| Buffers.Buffer.PushBack | include/fmt/base.h:1812-1815 | exactly the element is appended and nothing behind the limit is written |
| Buffers.Buffer.Append | include/fmt/base.h:1817-1837 | exactly the elements are appended, however often the buffer is flushed; the loop ends |
| Buffers.FormatToN | include/fmt/base.h:2862-2870 | the first n elements are written and the size of all is returned, to memory and to an iterator |
| Buffers.FormattedSize | include/fmt/base.h:2000-2018 | the counting buffer returns the same size |
| FormatStrings.ParseReplacementField | include/fmt/base.h:1578-1622 | the handler calls for one field, on the parse context, emit what the specification says |
| FormatStrings.ParseFormatString | include/fmt/base.h:1624-1643 | text given out in runs and fields one by one emit the string as specified position by position |
| FormatStrings.FieldMeans | include/fmt/base.h:1328-1343 | the decimal number in a field is the id of the argument emitted, if there is that argument |
| FormatStrings.SpecFieldMeans | include/fmt/base.h:1578-1622 | the same with specifiers that end at the brace |
| FormatStrings.AutoSpecMeans | include/fmt/base.h:1578-1622 | specifiers without an id are for the first argument |
| FormatStrings.SpecsRejected | include/fmt/base.h:1618-1621 | specifiers that are rejected or do not end at a brace reject the string |
| FormatStrings.PiecesMean | include/fmt/base.h:1578-1643 | any string of text with doubled braces and fields with and without ids is accepted exactly if the arguments are there and not given both ways, and emits that text and those arguments, compiled or not |
| FormatStrings.AutoIds | include/fmt/base.h:1590-1594 | k fields without an id emit the arguments 0 to k - 1, if there are as many |
| FormatStrings.MalformedRejected | include/fmt/base.h:1328-1343 | behind any such string an open field, an id with a leading zero or anything else behind it, or a lone closing brace rejects it |
| FormatStrings.CompiledAgrees | include/fmt/compile.h:353-416 | from every position and argument index the tree emits what the parser emits |
| FormatStrings.CompileRefinesParse | include/fmt/compile.h:417-429 | what is accepted at run time compiles to a tree with the same output; what compiles is accepted exactly if no lone closing brace is passed over |
| FormatStrings.LoneBraceCompiled | include/fmt/compile.h:403-406 | a string that compiles and that the parser rejects |
| FormatStrings.DoubledIsText | include/fmt/compile.h:239-262 | doubling every brace of a text makes both emit the text |
| LogRotation.LogFile.Open | src/logger/log_file.cpp:6-14 | the file exists, emptied if truncated, and its size is that of its text |
| LogRotation.LogFile.RenameIndex | src/logger/log_file.cpp:28-38 | the text moves to the new index, if there is a file to move |
| LogRotation.FileSink.Init | src/logger/file_sink.cpp:8-16 | the first file is open, unless the directory had to be created |
| LogRotation.FileSink.RoutingLogs | src/logger/file_sink.cpp:81-102 | every text moves up by one, nothing is renamed onto a file, and at the limit the oldest is dropped |
| LogRotation.FileSink.Log | src/logger/file_sink.cpp:23-64 | a message below the level changes nothing; any other is appended and the full file rotated, as LoggedMeans and RunRotates spell out |
| LogRotation.LoggedMeans | src/logger/file_sink.cpp:60-63 | a line that does not fill the file is appended; one that does moves every file up by one and starts an empty one, or with a limit of one empties the newest |
| LogRotation.RunRotates | src/logger/file_sink.cpp:60-102 | at every line of every run: the counted size stays below a maximum that is set; a full file raises the number of files below the limit, and at the limit exactly the text of the oldest is gone |
| LogRotation.FullAtOnce | src/logger/file_sink.cpp:60-102 | with a maximum of one a line is in file 1 and file 0 is empty |
| LogRotation.LoggedText | src/logger/file_sink.cpp:60-63 | what one message does to the text of all files, also where it is lost |
| LogRotation.RunKeepsSuffix | src/logger/file_sink.cpp:23-102 | in every run the files hold the end of everything logged and stay within the limit |
| LogRotation.SingleFileRun | src/logger/file_sink.cpp:84 | in every run with a limit of one the older files stay; the newest holds what it held and all lines if they fit, and else exactly the lines behind the last one that fills it |
| LogRotation.FillingMeans | src/logger/file_sink.cpp:60-63 | no line fills the file exactly if the lengths of all together stay below the maximum, and the lines behind the last that does fit into an empty one |
| LogRotation.SingleFileLoses | src/logger/file_sink.cpp:84 | such a run loses what the newest file held and the lines up to the last that fills it; nothing is lost exactly if the lines fit, and what is there is the end of everything only then or if the older files are repeated in front of it |
| LogRotation.SingleFileLosesEnd | src/logger/file_sink.cpp:84 | with a limit of one and two files the newest text is lost |
| SyncQueues.SyncQueue.Pop | include/container/sync_queue.h:69-76 | the front element, or nothing after a stop |
| EventBuses.EventHandler.HandleNext | include/event_bus/event_handler.h:51-61 | the front event goes to the callback of its type, if there is one then |
| EventBuses.EventBus.Publish | include/event_bus/event_bus.h:32-44 | exactly the subscribers that know the type get the event, as their last; the result says whether there is one |
| EventRuns.RunKeepsOrder | include/event_bus/event_handler.h:49-63 | in every interleaving a handler's events, taken and queued, and those its callbacks saw, are in publication order without duplicates |
| EventRuns.SameOrder | include/event_bus/event_bus.h:32-44 | two handlers never have two common events in opposite orders |
| EventRuns.NothingLost | include/event_bus/event_handler.h:119-126 | only clearing a queue takes events from a handler |
| EventRuns.PublicationReaches | include/event_bus/event_bus.h:31-44 | when a publication ends every subscriber that knew the type all the time has the event as its last, whatever else happened meanwhile, and nobody but a subscriber has it |
| EventRuns.TurnUninterrupted | include/event_bus/event_handler.h:52-58 | taking and dispatching an event without interruption has the effect of the method on queue and callbacks |
| EventRuns.KnownIsHandled | include/event_bus/event_handler.h:55-58 | in every run an event that a handler is done with has reached its callback if that stayed registered, and has not if none was registered meanwhile |
| EventRuns.PublishedIsHandled | include/event_bus/event_handler.h:55-58 | in every run an event taken and done with has been handled if its type was registered when it was published and has not been cancelled since |
| EventRuns.AllHandled | include/event_bus/event_handler.h:49-63 | if no callback of a handler is ever cancelled they have seen exactly the events taken, in order, but for the current one |
| EventRuns.UnsubscribedGetsNone | include/event_bus/event_bus.h:64-68 | a handler unsubscribed and not subscribed again has only events published before |
| EventRuns.SubscriptionStands | include/event_bus/event_bus.h:58-68 | a handler is subscribed until it is unsubscribed |
| EventRuns.CallbackStands | include/event_bus/event_handler.h:74-108 | a type has a callback from its registration to its cancellation and none the other way round |
| EventRuns.ClearedNeverTaken | include/event_bus/event_handler.h:110-112 | what was queued when the queue was cleared is never taken |
| EventRuns.BusExclusive | include/event_bus/event_bus.h:32-44 | from the start to the end of a publication nobody else publishes, subscribes or unsubscribes |
| EventRuns.HandlerExclusive | include/event_bus/event_handler.h:54-58 | until a callback has finished its handler dispatches nothing else and its callbacks are not changed or looked up |
| EventRuns.Uninterrupted | include/event_bus/event_bus.h:31-44 | the steps of a publication that nobody interrupts have the effect of the method |
| EventRuns.EndsExactly | include/event_bus/event_handler.h:49-58 | a publication under way can be finished exactly if no handler still to be visited is held by a callback that waits for the bus mutex or publishes |
| EventRuns.RunCanEnd | include/event_bus/event_bus.h:31-44 | in a run in which no callback takes the bus mutex every publication can be finished at any time |
| EventRuns.OwnPublication | include/event_bus/event_handler.h:55-58 | a callback that publishes while its own handler is subscribed never returns |
| EventRuns.OtherPublication | include/event_bus/event_handler.h:55-58 | neither does a subscribed one that waits for the bus mutex when somebody else publishes |
| EventRuns.CallbackPublishes | include/event_bus/event_handler.h:55-58 | a run that leads to such a publication |
| ThreadPools.ThreadPool.Startup | include/thread/thread_pool.h:123-134 | as many workers as asked for, at least one, and the default maximum |
| ThreadPools.TargetMeans | include/thread/thread_pool.h:153-173 | the first idle worker, else a new one exactly if the pool may expand and stays within twice the hardware threads, else the picked one |
| ThreadPools.ThreadPool.Submit | include/thread/thread_pool.h:144-176 | that worker's queue gets the work and the counter goes up, exactly if it is within the maximum; nothing else changes |
| ThreadPoolRuns.NextKeeps | include/thread/thread_pool.h:76-105 | every step of submitters and workers keeps the accounting and the limits |
| ThreadPoolRuns.PoolLimits | include/thread/thread_pool.h:144-176 | in every run the counter is what is pending and at most the maximum plus one, workers are bounded, and each is first in, first out |
| ThreadPoolRuns.GrowsExactly | include/thread/thread_pool.h:159-173 | in every run a submission that finds no idle worker adds one exactly if the pool may expand and has fewer than twice the hardware threads, and else may pick any |
| ThreadPoolRuns.BusyExactly | include/thread/thread_pool.h:78-86 | in every run a worker is marked busy exactly while it runs a task or has not returned to its wait |
| ThreadPoolRuns.TurnUninterrupted | include/thread/thread_pool.h:76-87 | one turn of a worker takes, runs and counts off the front task |
| ThreadPoolRuns.TaskInOnePlace | include/thread/thread_pool.h:76-105 | in every run accepted work is in exactly one place |
| ThreadPoolRuns.Uninterrupted | include/thread/thread_pool.h:144-176 | the steps of a submission that nobody interrupts have the effect of the method |

## Left out

- DragonFormat.FormatDragon: the estimate of the exponent is a precondition: exact, or one too high if it is to be fixed up. The floating-point arithmetic that produces it (format.h:3017-3028) is not modelled, only the powers it lies between in `LowerEnds.Estimated`; nor are `Dragonbox`'s shortest algorithm and its cached powers.
- Bigints.Bigint.DivmodAssign: dividends of 2^31 times the divisor or more are excluded, because their quotient does not fit the int returned.
- Bigints.SquareBigits: bigints whose doubled number of bigits does not fit an int are excluded.
- Bigints.Bigint.AssignPow10: exponents are those of a positive int; the sizes of the bigint's buffer and of other int arithmetic on exponents are unbounded.
- TrailingZeros.RemoveTrailingZeros64: a truncated quotient of zero, which the 32-bit variant asserts away, is excluded as that assertion does.
- Subsegments.PrintSegment: the segment, and whether anything follows it, are parameters; the multiplication by a cached power that produces them is not modelled.
- Grouping.Apply: positions are unbounded; an int that overflows while a number of digits close to its maximum is grouped is not modelled.
- Utf16.Convert: units are 16 bits wide; the variant for 32-bit characters and the terminating zero of the stored buffers are not modelled.
- Utf16.Utf8ToUtf16: what the callback pushes is pushed after the iteration, which ends at the same call.
- Buffers.Buffer.Append: characters only; moving a buffer, the pointer variant without a limit, containers and the capacity of sizes are not modelled.
- FormatStrings.CompileRefinesParse: fields with names count as errors, and the parser of format specifiers is one function for both, which refers to no arguments.
- LogRotation.FileSink.Log: the text of a line is a parameter, and so not the level names in it. File indices without gaps and file operations that succeed are assumed.
- EventRuns.RunKeepsOrder: payloads, acknowledgements and the overload of `Publish` that moves its payload are not modelled, nor stopping and restarting a handler.
- EventRuns.EndsExactly: a callback waits for the bus mutex only; one that waits for the mutex of a handler, its own or another's, is not modelled.
- ThreadPoolRuns.PoolLimits: runs end before `Shutdown`; what a task does, and `exec` with its future, is not modelled. Waiting is modelled by steps that are not possible.
- SyncQueues.SyncQueue.Pop: the overload with a condition is not modelled; before a stop it takes elements in the same way.
- Locale facets, `printf.h`, `ranges.h`, chrono formatting, console and file output: input and output or type-level dispatch.
- SQLite wrapper, packets, clock, singleton and Windows code: foreign calls or easy members only.
