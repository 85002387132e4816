# Verified model of the jstring byte-string engines

jstring is a C string library. This project models its three hardest engines in Dafny and proves
that each of them computes a simple mathematical answer:

- **Substring search.** The two-way searcher compiles a needle into a critical factorization, a
  period and a last-occurrence table, and then shifts past the haystack. `Words.dfy` develops the
  theory of greatest suffixes and critical positions; `TwoWay.dfy` is the compile step and the
  search loop, with a count of byte comparisons, for any byte map; `Dispatch.dfy` is the choice
  between algorithms. All of them return `Search.Find`, the least position of an occurrence.
- **Replacement in one buffer.** `ReplaceSpec.dfy` says what greedy leftmost non-overlapping
  replacement is; `Replace.dfy` proves the shrinking loop, the two-pass growing form that parks the
  unread source at the top of the same buffer, and the entry points against it. `Insert.dfy` proves
  the two back-to-front rebuilds against the same function, and `RemoveSet.dfy` the removal of a
  byte set.
- **Regex replacement.** The matcher is an oracle. `Backref.dfy` proves that the length pass over a
  window of the replacement and the copy pass over all of it agree; `Regex.dfy` proves the replace
  and remove loops against one recursive specification; `RegexLaws.dfy` relates that specification
  to the plain one and shows that a reference to the whole match changes nothing.

Around them are fast forms that refine simple ones: rolling-word search (`Rolling.dfy`), vector
search with bit masks (`Simd.dfy`), `memrchr` a word at a time (`Memrchr.dfy`, on bit vectors),
integer printing, reading and thousand separators (`Numerals.dfy`, `Itoa.dfy`, `Thousep.dfy`), and
unescaping in place (`Unescape.dfy`).

Pointers are indices into one `array<byte>` or, for code that only reads, into a sequence. A
`Buffer` has the data, the size and, as the array's length, the capacity. Allocation is a parameter
`alloc` that says which requests succeed; `Ample(alloc)` means that all of them do. Code that writes
is a method over the array with loop invariants, specified by a function of the old contents.

Where the code does not do what a reader would expect of it, the model follows the code:

- Removing several single bytes gives up when the byte at the start offset is NUL
  (`include/replace.h:466`). `ReplaceSpec.OutcomeIsReplaced` states exactly when the result differs
  from the greedy specification, and `ReplaceSpec.OutcomeKeepsAfterNul` is a concrete input.
- Removing a byte set stops at an embedded NUL and, if anything was removed before it, ends the
  string there. `RemoveSet.OutcomeIsKept` states exactly when the result is the filtered string, and
  `RemoveSet.OutcomeEndsAtNul` is a concrete input.
- The scan for the first back-reference measures what is left of the replacement by an unsigned
  difference (`include/regex.h:622`, `include/pointer-arith.h:13`). After a backslash pair that ends
  the replacement its cursor lies one past the last byte, the difference wraps, and memchr reads
  beyond the replacement. `Backref.BackrefFirst` states exactly for which replacements that happens:
  read a pair or a byte at a time, they hold no backslash-digit pair, and their last pair ends them.
  `Backref.OverrunsAtEscape` is the smallest of them, and `Regex.RplcN` carries the condition.
- Where the C library has strncasecmp, the periodic test of the case-insensitive search compares
  with it (`include/string.h:678`, `include/stdstring.h:129`), and strncasecmp stops at a NUL.
  `TwoWay.Searcher.Compile` states exactly which needles are then compiled wrongly, those whose own
  split `NulMisleads`; a needle without a NUL never is. `Dispatch.CaseAnswerIsFind` says that every
  haystack is searched right if and only if the needle is not one of those with a letter and more
  than eight bytes: for each of these there is a haystack in which a match is reported that is none.
  `Dispatch.StrNCaseCmpIsMisled` and `Dispatch.MisledSearchErrs` are a concrete needle and haystack.
- A single regex removal asserts that the length of the text is its strlen (`include/regex.h:375`),
  and `assert` is the C library's own. In a build that keeps asserts it aborts exactly for texts that
  hold a NUL; removing several matches from the same text does not. `Regex.Aborts` is the condition,
  `Regex.RmFirst`, `Regex.RmN` and `Regex.RplcN` carry it, and `Regex.AbortsAtNul` is an input.
- memrchr a word at a time loads one word ahead (`include/internal/musl/stdstring.h:71`).
  `Memrchr.MemRChr` states exactly when that load leaves mapped memory: when the string starts where
  memory starts, holds a whole word and does not hold the byte.
- The doubling of a capacity wraps for requests near the largest `size_t`. `Buffers.WrapsPastLimit`
  states exactly for which, and that requests up to half of it never do; `Buffers.GrownOnSize` says
  that without a wrap the loop on `size_t` ends with the modelled capacity.
- The separating printer does not group numbers up to 999 in bases below 10
  (`include/itoa.h:164`). `Thousep.PrintersAgree` states exactly when the printers agree.
- The header of the back-reference tests speaks of invalid references as empty; the code keeps them
  literally, and so does `Backref.Expand`.
- When an allocation fails in the middle of the regex replace loop, the size field is left at the
  write offset; the source text is still intact at the front of the data. A regexec error in the
  remove loop leaves the size as it was, over bytes that are partly compacted.

## Model

| member | source | states |
|---|---|---|
| Words.NoRepetitionFitsLeft | include/internal/musl/twoway.h:83-104 | A repetition at the start of the greatest suffix is longer than everything left of it |
| Words.RepetitionIsPeriod | include/internal/musl/twoway.h:127-130 | Critical factorization: at the later of the two greatest-suffix starts, a length repeats locally only if it is a period of the whole needle and exceeds the left part |
| Words.GreatestSuffixesAreCritical | include/internal/musl/twoway.h:127-130 | The position chosen from the two greatest suffixes is critical |
| Words.RightPeriodExtends | include/internal/musl/twoway.h:131-136 | If any period of the needle fits into the right part, the right part's smallest period is a period of the needle |
| Words.ScanExtends | include/internal/musl/twoway.h:88-91 | When the competitor loses, all letters seen become one period block of the best suffix |
| Words.ScanAgrees | include/internal/musl/twoway.h:92-98 | Agreement on one more letter, or on a whole period, keeps the scan's state |
| Words.ScanRestarts | include/internal/musl/twoway.h:99-102 | When the competitor wins, it beats every suffix before it and becomes the best |
| Words.ScanEnds | include/internal/musl/twoway.h:85-105 | At the end the scan holds the greatest suffix and that suffix's smallest period |
| TwoWay.Searcher.GreatestSuffix | include/internal/musl/twoway.h:83-105 | Either scan finds the start of the greatest suffix under its byte order and the suffix's smallest period, in at most twice the needle's length comparisons |
| TwoWay.Searcher.FillTables | include/internal/musl/twoway.h:74-82 | The byte set is membership in the mapped needle and the shift table is one past the last occurrence |
| TwoWay.Searcher.FillTablesEol | include/internal/musl/twoway.h:74-82 | The same while the needle's NUL is being looked for |
| TwoWay.Searcher.Factorize | include/internal/musl/twoway.h:83-130 | The chosen suffix start is critical and the kept period is the right part's smallest |
| TwoWay.PeriodicNeedle | include/internal/musl/twoway.h:131-137 | If the left part recurs one period later, that period is the needle's smallest and the memory is the rest of the needle |
| TwoWay.AperiodicNeedle | include/internal/musl/twoway.h:131-135 | Otherwise no period of the needle is below the stored shift, and nothing is remembered |
| TwoWay.SameUpToNulIs | include/stdstring.h:126-134 | The comparison that stops at a NUL differs from full equality exactly when the strings agree up to a NUL and differ behind it |
| TwoWay.NoNulNeverMisleads | include/stdstring.h:126-134 | Without a NUL in the needle both comparisons give the same periodic test |
| TwoWay.MisledIsUnusable | include/internal/musl/twoway.h:131-137 | What a misled test stores is not a period of the needle |
| TwoWay.Searcher.TestPeriod | include/internal/musl/twoway.h:131-137 | The test stores a period and a memory that the search may use if and only if it does not compare with strncasecmp and meet halves that agree up to a NUL only; otherwise it keeps the right part's period and remembers the rest of the needle |
| TwoWay.Searcher.Compile | include/internal/musl/twoway.h:64-138 | Compiling establishes tables and shifts that stay in range, with at most six comparisons per needle byte; the period and the memory are sound if and only if the comparison is not one that this needle's NULs mislead |
| TwoWay.Searcher.CompileEol | include/internal/musl/twoway.h:64-138 | The same for a NUL-terminated needle, for which either comparison is sound |
| TwoWay.LastByteShift | include/internal/musl/twoway.h:184-197 | No match is skipped by shifting the byte under the needle's end to its last occurrence, or past it |
| TwoWay.MemoryShift | include/internal/musl/twoway.h:188-191 | Raising that shift to the remembered prefix is safe too |
| TwoWay.RightMismatchShift | include/internal/musl/twoway.h:199-204 | A mismatch in the right part rules out every shift up to its distance from the critical position |
| TwoWay.PeriodShift | include/internal/musl/twoway.h:206-211 | A mismatch in the left part rules out every shift below the stored period |
| TwoWay.PrefixSurvives | include/internal/musl/twoway.h:210-211 | After moving by the period the remembered prefix matches |
| TwoWay.Searcher.LastByte | include/internal/musl/twoway.h:183-198 | The last-byte test yields the distance of the byte's last occurrence from the needle's end, at least the memory, or zero exactly when the last byte matches; after a sound compilation no match is skipped |
| TwoWay.Searcher.Round | include/internal/musl/twoway.h:183-211 | One round reports a match exactly when everything past the remembered prefix agrees, and otherwise moves by the last byte, the first mismatch of the right part, or the period; after a sound compilation that passes no match; no haystack byte of a right part is read twice |
| TwoWay.Searcher.Exec | include/internal/musl/twoway.h:140-214 | For every compiled needle, sound or not, the answer is that of the rounds; for every soundly compiled needle, every haystack and byte map it is the least match, with at most three comparisons per haystack byte |
| TwoWay.TrapIsSprung | include/internal/musl/twoway.h:183-211 | If the stored period is wrong, a haystack that differs from the needle in its first letter and repeats its last period is reported at that period |
| TwoWay.MisledErrs | include/internal/musl/twoway.h:140-214 | For every needle whose NULs mislead the comparison, under any byte map with a letter to spare, some haystack is answered with a place where the needle is not |
| TwoWay.Searcher.MoreHaystack | include/internal/musl/twoway.h:170-177 | Discovering a chunk stays before the NUL, and a chunk too short for the needle is the last |
| TwoWay.Searcher.ExecEol | include/internal/musl/twoway.h:140-214 | The build that discovers the haystack's end in chunks gives the same answer as a search of the whole string, with the same bound |
| Rolling.ValueIsInjective | include/internal/musl/strstr-lt8.h:52-58 | Packed words are equal exactly when the byte strings are |
| Rolling.RollWindow | include/internal/musl/strstr-lt8.h:56-57 | Shifting in one byte and masking, on 64-bit words, packs the next window |
| Rolling.MemMemLt8 | include/internal/musl/strstr-lt8.h:47-59 | The masked rolling search for needles of up to eight bytes returns the least match under the byte map |
| Rolling.MemMem2 | include/internal/musl/strstr-lt8.h:60-71 | The two-byte form returns the least match |
| Rolling.MemRMemLt8 | include/internal/musl/strstr-lt8.h:76-90 | The reverse rolling search returns the greatest match |
| Rolling.MemRMem8More | include/internal/musl/strstr-lt8.h:92-111 | The reverse search by a word and memcmp returns the greatest match of needles of eight bytes or more |
| Dispatch.SkipKeepsFirst | include/string.h:495-500 | Skipping to the needle's first byte keeps the least match, also when that byte is absent |
| Dispatch.SkipKeepsLast | include/string.h:643-647 | Skipping backwards to the needle's first byte keeps the greatest match |
| Dispatch.MemMem | include/string.h:489-502 | The portable dispatch returns the least match for every needle, position zero for the empty one |
| Dispatch.MemMemExec | include/string.h:536-553 | So does the search with a compiled needle |
| Dispatch.MemRMem | include/string.h:636-652 | The reverse dispatch returns the greatest match, the end for the empty needle; for needles of eight bytes and more the part up to the last candidate must fit 32 bits |
| Dispatch.OccursIgnoringCase | include/internal/musl/ctype.h:171 | Occurring in lower case is occurring byte by byte, up to the two cases 0x41..0x5A and 0x61..0x7A of an ASCII letter |
| Dispatch.StrCaseStr | include/string.h:690-714 | The first place where the needle stands up to the case of ASCII letters, for every needle but those longer than eight bytes with a letter that mislead strncasecmp where that is the comparison; for those the answer of the misled rounds |
| Dispatch.CaseAnswerIsFind | include/string.h:690-714 | Every haystack is answered with its least match if and only if the needle is not one of those |
| Dispatch.StrNCaseCmpIsMisled | include/string.h:678 | A needle of that kind, for which a period is stored that is none |
| Dispatch.MisledSearchErrs | include/internal/musl/twoway.h:183-214 | A haystack without that needle in which the search answers position four |
| Dispatch.LettersOnlyMatchLetters | include/string.h:694-699 | Dropping to exact search when the needle has no letter preserves the answer |
| Buffers.Grown | include/builder.h:147-149 | Doubling reaches the requested capacity, keeps the old one if it suffices, and otherwise stays below twice the request |
| Buffers.GrownDoubles | include/builder.h:147-149 | A capacity that is too small is doubled, and the result stays below twice the request |
| Buffers.WrapsPastLimit | include/builder.h:147-149 | A doubling on `size_t` wraps exactly when the capacity so reached is no `size_t`, and never for a request of up to half the range |
| Buffers.LargestRequestWraps | include/builder.h:147-149 | A concrete request that wraps |
| Buffers.GrownOnSize | include/builder.h:147-149 | Without a wrap the loop on `size_t` makes the same rounds, none of its capacities before the last suffices, and it stops at the same one |
| Buffers.Buffer.ReserveAlways | include/builder.h:144-156 | Growing keeps every byte and reaches at least 24 and the request; a failed allocation changes nothing; without a wrap the new capacity is that of the loop on `size_t` |
| Buffers.Buffer.Reserve | include/builder.h:167-173 | A capacity that suffices is left alone |
| ReplaceSpec.ReplacedLength | include/replace.h:1105-1169 | Replacing changes the length by the number of replacements times the difference of the lengths |
| ReplaceSpec.ReplacedBounded | include/replace.h:1105-1169 | Searching only up to the last counted match finds the same matches |
| ReplaceSpec.CountIsLimited | include/replace.h:1088-1131 | The count is the limit or the number of matches, whichever is less |
| ReplaceSpec.LimitReplaces | include/replace.h:1062-1170 | A limit replaces the first so many matches and keeps the string from the next match on |
| ReplaceSpec.OutcomeIsReplaced | include/replace.h:1062-1170 | The entry point gives the greedy replacement if and only if it is not asked for several one-byte removals from a NUL byte on with something to remove |
| ReplaceSpec.OutcomeKeepsAfterNul | include/replace.h:466 | A concrete input of the exceptional kind |
| ReplaceSpec.MatchAt | include/replace.h:1062-1170 | The greedy matches are occurrences, do not overlap, leave no occurrence between them, and are what replacing all replaces |
| ReplaceSpec.EnoughIsAll | include/replace.h:1197-1203 | A limit of at least the string's length replaces every match, and the count is the number of matches |
| ReplaceSpec.ReplacedByItself | include/replace.h:1062-1170 | Replacing matches by themselves changes nothing |
| ReplaceSpec.InsertionIsReplacement | include/replace.h:208-261 | Inserting after every match is replacing every match by itself and the insertion |
| Replace.RplcAt | include/replace.h:105-114 | Splicing replaces exactly the given range and keeps the terminator; on failure nothing changes |
| Replace.ReplaceOne | include/replace.h:1088-1101 | One match of either in-place loop keeps the unread source and the pending result intact |
| Replace.CompactAll | include/replace.h:1082-1104 | The shrinking loop, entered past its first search, produces the greedy replacement and its count with the write cursor never past the read cursor |
| Replace.ShrinkInPlace | include/replace.h:1082-1104 | The shrinking branch equals the specification, the part before the start offset included |
| Replace.CountMatches | include/replace.h:1107-1131 | The first pass counts the matches up to the limit and finds where the last one ends |
| Replace.PlanGrowth | include/replace.h:1112-1150 | Count and end of the first pass determine the final text and its length |
| Replace.FillAll | include/replace.h:1147-1166 | The second pass, bounded by the last match, finds the counted matches and never writes past the new size, where the unread source begins |
| Replace.GrowInPlace | include/replace.h:1105-1169 | The growing branch equals the specification; if memory runs out the text is unchanged |
| Replace.RmNChr | include/replace.h:459-481 | Removing up to n bytes equals the specification except from a NUL byte on, where nothing happens |
| Replace.RmN | include/replace.h:906-937 | Removing up to n matches equals the specification with an empty replacement, with the same exception |
| Replace.RplcNChr | include/replace.h:804-811 | Overwriting single bytes equals the specification |
| Replace.RplcFirst | include/replace.h:1022-1035 | Replacing the first match equals the specification with limit one |
| Replace.RplcN | include/replace.h:1062-1170 | For every needle, replacement, limit and offset the matches up to the limit are replaced and the count is the limit or the number of matches, whichever is less; nothing happens and the count is zero for an empty needle, an offset past the end, and several removals of one byte from a NUL on |
| RemoveSet.OutcomeIsKept | include/replace.h:408-434 | Every byte of the set from the offset on is removed if and only if there is no NUL there or nothing to remove |
| RemoveSet.OutcomeEndsAtNul | include/replace.h:408-434 | A concrete input of the exceptional kind |
| RemoveSet.OutcomeIs | include/replace.h:408-434 | The text before the offset is kept, the part up to the first byte 0 is filtered, and what follows is kept only if nothing was removed |
| RemoveSet.KeptIs | include/replace.h:415-432 | Filtering drops the bytes of the set and keeps the others in order |
| RemoveSet.CompactRuns | include/replace.h:415-432 | The loop entered by a jump filters the string in place and counts what it removed |
| RemoveSet.RmAllSpn | include/replace.h:408-434 | The text and the count of the entry point |
| Insert.CountChr | include/string.h:1167-1182 | Counting one byte gives its number of occurrences |
| Insert.MatchesOfByte | include/string.h:1195-1199 | The greedy matches of one byte are its occurrences |
| Insert.CountStr | include/string.h:1195-1204 | The counting entry point counts the greedy matches, of a one-byte needle byte by byte, and none of the empty needle |
| Insert.CountAll | include/string.h:1202-1204 | The counting loop counts the greedy matches |
| Insert.RecordAll | include/replace.h:230-242 | The recorded offsets are the greedy matches |
| Insert.RebuildStep | include/replace.h:245-256 | Writing one match and its insertion below the finished part keeps everything below the match untouched |
| Insert.InsertAfterAllStr | include/replace.h:208-261 | The rebuild from recorded offsets equals replacing every match by itself and the insertion |
| Insert.LastByteIsMatch | include/replace.h:156-173 | Searching backwards for a byte meets the greedy matches in reverse |
| Insert.InsertAfterAllChr | include/replace.h:141-176 | The one-byte rebuild gives the same string |
| Insert.InsertAfterAll | include/replace.h:208-261 | So does the entry point; a failed allocation leaves the text unchanged |
| Backref.BackrefFirst | include/regex.h:617-624 | The cursor leaves the replacement if and only if the aligned reading meets no reference and its last pair ends the replacement; otherwise the first aligned reference is found, or there is none; everything before it is literal |
| Backref.OverrunsAtEscape | include/regex.h:622 | The two-byte replacement of a backslash and an `n` is one that the scan leaves |
| Backref.FirstPairReads | include/regex.h:617-624 | A first pair with a digit is a reference and never overruns; any other pair leaves both questions to the rest, and overruns if it ends the replacement |
| Backref.NoPairReads | include/regex.h:617-624 | Without a pair there is neither a reference nor an overrun |
| Backref.BackrefLast | include/regex.h:632-653 | No backslash-digit pair, aligned or not, stands at or after the end that the right-to-left scan finds |
| Backref.FindWindow | include/regex.h:726-742 | The two scans delimit a window exactly when the aligned reading meets a reference, leave the replacement under the condition above, and otherwise find it literal throughout |
| Backref.WindowDecides | include/regex.h:726-742 | Outside the window every byte is literal, and the window does not end inside a pair |
| Backref.BackrefStrLen | include/regex.h:589-609 | The length pass returns the given length plus what expansion adds to the window, and an error exactly when the window ends inside a pair |
| Backref.ReplacementLength | include/regex.h:775-785 | The length reserved for is exactly the length of the expansion |
| Backref.BackrefCopy | include/regex.h:663-700 | The copy pass writes exactly the expansion, invalid references and a trailing backslash literally, from a subject in the same buffer |
| Backref.ReferenceExpands | include/regex.h:663-700 | A backslash and a digit below the number of groups become what the group matched, if it took part; otherwise they stay |
| Backref.OtherPairStays | include/regex.h:663-700 | A backslash and any other byte stay, and so does a backslash at the end |
| Backref.EndsUnpaired | include/regex.h:589-609 | The length pass fails exactly for a backslash at the end that no earlier backslash pairs |
| Regex.SubstituteOnce | include/regex.h:543-559 | The loop run once is one search and one splice |
| Regex.SubstituteCount | include/regex.h:760-840 | Never more replacements than the limit |
| RegexLaws.LineStarts | include/regex.h:132-142 | regexec is asked with REG_NOTBOL if the caller says so, and at every later offset but behind a byte 0x0A in a pattern compiled for newlines; its answer is spliced, a literal as it is and references expanded |
| RegexLaws.AnchoredInside | include/regex.h:132-142 | Inside a line a pattern that matches at line starts only replaces nothing more |
| RegexLaws.AnchoredOnce | include/regex.h:132-142 | Where newlines start no line, such a pattern is replaced at most once, and only from offset 0 |
| RegexLaws.EmptyMatches | include/regex.h:804-830 | A pattern that always matches empty is replaced before every byte and at the end |
| RegexLaws.RestMatches | include/regex.h:760-772 | After a match that is not empty there is none at the end of the string |
| Regex.BuildStep | include/regex.h:804-830 | One match extends the result by the unmatched bytes, the rendered replacement and, after an empty match, one byte |
| Regex.MakeRoom | include/regex.h:785-803 | The reserved capacity covers the replacement, the rest of the source and a NUL; on failure the size field is the write offset |
| Regex.ReplaceStep | include/regex.h:774-834 | One round keeps the source intact and the result pending, and the search offset advances |
| Regex.ReplaceLoop | include/regex.h:744-845 | The replace loop yields the specification's text and count for any oracle; every search sees the source as it was, its NUL included |
| Regex.RplcFirst | include/regex.h:543-559 | The shortcut for one literal replacement yields the same |
| Regex.RplcN | include/regex.h:711-846 | The entry point, with or without back-references, yields the specification for every offset and limit, except that the scan leaves the replacement if and only if back-references are on, there is something to search and the replacement overruns, and that it aborts if and only if the replacement is empty and the removal does |
| Regex.StillUnread | include/regex.h:447-449 | Compaction has touched neither the rest of the subject nor the byte before the cursor |
| Regex.RemoveStep | include/regex.h:450-475 | Compacting one match keeps the result pending |
| Regex.RemoveLoop | include/regex.h:432-484 | The remove loop equals the specification with an empty replacement |
| Regex.AbortsAtNul | include/regex.h:375 | A text from which one match cannot be removed in a build with asserts, and two can |
| Regex.StrLen | include/regex.h:375 | The string's strlen is its length exactly when it holds no NUL |
| Regex.RmFirst | include/regex.h:369-386 | Removing the first match equals the loop run once; in a build with asserts it aborts, the text unchanged, if and only if the text holds a NUL and the offset lies within it |
| Regex.RmN | include/regex.h:414-485 | The remove entry point equals the specification with an empty replacement; it aborts if and only if it is asked for a single removal that does |
| RegexLaws.LiteralSubstitutes | include/regex.h:760-840 | For a pattern that matches a non-empty string literally, the regex specification gives the text and the count of the plain greedy replacement |
| RegexLaws.LiteralIsReplacement | include/regex.h:711-846 | The same from a start offset on, the part before it included |
| RegexLaws.WholeMatchKeeps | include/regex.h:663-700 | Replacing every match by a reference to the whole match changes nothing, for any oracle |
| Simd.FullCompare | include/internal/simd.h:576-587 | The shifted comparison mask equals the shifted ones exactly when the needle's bytes are equal |
| Simd.CheckCandidate | include/internal/simd.h:576-587 | A candidate is accepted exactly when the needle stands there, near a page end too |
| Simd.CheckMask | include/internal/simd.h:649-654 | Consuming the bits from the lowest finds the first candidate that matches |
| Simd.FirstBlock | include/internal/simd.h:641-655 | The first aligned block tests every candidate it covers, in order, and none past the end |
| Simd.Block | include/internal/simd.h:656-679 | So does every later block |
| Simd.MemMem | include/internal/simd.h:597-681 | Vector search returns the least match for every needle up to a vector, every alignment and any bytes behind the needle |
| Memrchr.HasZeroIsExact | include/internal/musl/stdstring.h:43-47 | The carry trick is non-zero exactly when some byte of the word is zero |
| Memrchr.LoadHolds | include/internal/musl/stdstring.h:68-71 | The word test fires exactly when the byte is among the eight |
| Memrchr.LastIndexIsMemRChr | include/internal/musl/stdstring.h:55-79 | The greatest address of the byte is the position that memrchr promises to the other searches |
| Memrchr.MemRChr | include/internal/musl/stdstring.h:55-79 | The greatest index of the byte, for every length and alignment; the word loop loads from below mapped memory if and only if the string starts there, holds a whole word and does not hold the byte |
| Numerals.DigitsAreNumeral | include/itoa.h:78-108 | The digits have the number's positional value and no leading zero |
| Numerals.NumeralIsDigits | include/itoa.h:78-108 | They are the only such string |
| Numerals.DigitsAreCharacters | include/itoa.h:29-33 | The characters are 0x30..0x39 and 0x61..0x7A in order, and one more digit multiplies by the base |
| Numerals.DigitsFit | include/itoa.h:36-60 | A base of at least two to the l writes a number of b bits in b / l + 1 digits |
| Numerals.GroupedFromRight | include/string.h:1632-1666 | A separator stands exactly before every third digit from the right |
| Numerals.UngroupedIsDigits | include/string.h:1632-1666 | Removing the separators gives the digits back |
| Itoa.UlltoaP | include/itoa.h:78-108 | Emitting from the least significant digit and reversing in place writes the numeral and a NUL |
| Itoa.UlltoaThousepP | include/itoa.h:157-196 | The same with separators, numbers up to 999 without |
| Itoa.CountUDigits | include/itoa.h:39-61 | The space counted covers every number of the width in every base, separators included |
| Itoa.AppendUnsigned | include/itoa.h:246-255 | The checked printer appends the numeral within the space it reserved, for the bases 2 to 36 only |
| Itoa.AppendSeparated | include/itoa.h:292-301 | The same with separators |
| Itoa.AtoU | include/itoa.h:339-349 | Reading any bytes gives the weighted sum, wrapped to the result's width |
| Itoa.WeightedLast | include/itoa.h:339-349 | One more byte multiplies by ten and adds the signed char it is, less 0x30 |
| Itoa.ReadingUndoesPrinting | include/itoa.h:339-349 | Reading what was printed in base 10 gives the number back |
| Thousep.Spread | include/string.h:1649-1663 | Moving the digits up in place, last one first, groups them |
| Thousep.SignIsMinus | include/string.h:1637-1666 | A leading 0x2D is kept apart from the digits, and nothing else is |
| Thousep.ThousepLenP | include/string.h:1637-1666 | The in-place form groups what follows a minus sign and leaves short strings alone |
| Thousep.CopyGrouped | include/string.h:1710-1727 | The forward copy groups the digits |
| Thousep.ThousepcpyLenP | include/string.h:1692-1729 | The copying form writes the same string as the in-place form, terminated |
| Thousep.PrintersAgree | include/itoa.h:157-196 | Printing with separators equals adding them afterwards if and only if the number exceeds 999 or has at most three digits; in base 10 and above always |
| Unescape.PlainPrefix | include/string.h:1812-1823 | Bytes without a backslash stand for themselves, so unescaping may start at the first backslash |
| Unescape.EscapedLetter | include/string.h:1785-1791 | A backslash before b, f, n, r, t or v stands for 0x08, 0x0C, 0x0A, 0x0D, 0x09 or 0x0B, and before any other byte that is no octal digit for that byte |
| Unescape.EscapedOctal | include/string.h:1772-1783 | One to three octal digits stand for their value modulo 256, and a value of zero ends the string |
| Unescape.EscapedNothing | include/string.h:1767-1769 | A backslash at the end is dropped |
| Unescape.UnescapedOctals | include/string.h:1772-1783 | Every string without NUL is what its octal escapes mean |
| Unescape.ReadOctal | include/string.h:1775-1778 | At most three octal digits are read, and their value wraps at a byte |
| Unescape.UnescapecpyP | include/string.h:1756-1800 | In place or into another place the result is the meaning of the string, the write index never passes the read index, and a NUL, escaped or real, ends it |
| Unescape.UnescapeP | include/string.h:1812-1823 | The same for the in-place entry point |

## Left out

- regcomp and regexec: foreign code; the matcher is any function of the remaining subject and the not-at-line-start flag whose offsets lie within the subject.
- Buffers.Grown: capacities are unbounded here; when a doubling wraps is stated on its own, what the loop does after that is not.
- Buffers.Buffer.ReserveAlways: a request whose doubling wraps is served as if numbers were unbounded.
- Replace.RplcN: does not model the wrap-around of sizes beyond the address space.
- Backref.BackrefFirst: does not model what the scan reads once it has left the replacement.
- Regex.RplcN: says nothing about what happens once the scan has left the replacement; does not model the overflow of the signed change count, and says nothing about the text after a failed allocation beyond the intact source.
- Rolling.MemRMem8More: haystacks are limited to a 32-bit length, as the source's parameter is.
- Dispatch.MemRMem: for needles of eight bytes or more the same limit, on the part of the haystack up to the last candidate.
- Memrchr.MemRChr: memory is mapped in whole words, and words are little-endian and have 64 bits; what happens after a load from below it is not said.
- TwoWay.Searcher.FillTables: the byte set is one flag per byte value, not bits packed into four words.
- Unescape.UnescapecpyP: the destination is not inside the source except at or before its start.
- Thousep.ThousepcpyLenP: copies a string shorter than four digits at once instead of byte by byte.
- The choice of libc's memmem or of the vector form at compile time: the dispatchers model the portable branch, and the vector form is modelled on its own.
- memchr, memcmp, memmove, memcpy, strnlen, strcspn and strspn: taken as their specifications, and so are the case-insensitive memchr and the memrchr that the dispatchers and the one-byte rebuild call.
- The other vector routines, and the word-at-a-time forms of the other character searches: easier instances of the same patterns.
- Signed integer printing and reading, and their space: the source counts no slot for the sign in some bases and reads the sign as a digit.
- The asserts of debugging builds, which check what the modelled callers keep anyway.
- The entry points that only fix an argument, the place functions, and push, pop and assign.
- File, process and directory input and output, formatted printing and its size, and error messages.
