# Verified models of the algorithmic core carried by mesytec-mvlc

The project models, in Dafny, the parts of the repository whose correctness is not visible from
reading one function at a time, and proves what they are there for.

- **The Boolean minimizer** (`external/minbool/minbool.h`). The whole Quine-McCluskey pipeline: the
  counting sort, the merge rounds, the prime chart with its dominance reductions, and the greedy
  fallback. Values are sets of bit positions; every iteration over an unordered map is an arbitrary
  choice. The result is correct on every input with disjoint lists, and has the fewest terms possible
  unless the fallback was used. Whether it is used does not depend on those choices: the exact reductions
  are shown to be confluent, and the fallback runs exactly if no order of them empties the chart.
- **The test-case core of doctest** (`external/argh/doctest.h`). Subcase re-entry is characterized for
  *every* tree of subcases and every filter setting, and shown to visit each root-to-leaf path once, in
  depth-first order, exactly when sibling signatures are distinct. The single-backtrack wildcard matcher
  decides the declarative meaning of patterns. The multi-lane counter is a state machine of
  interleaved steps; loads are linearizable exactly when no two different amounts other than zero are added.
- **The buffered stream** (`mz_strm_buf.c`). Every operation is described for every state it can meet, also
  those in which the cached position is wrong, and is shown to agree with the unbuffered stream under an exact
  condition. Sessions of reads, writes, tells and seeks of all three kinds give the answers, and leave the file,
  of the same session without the cache, if each operation comes at a time when that can be told in advance.
- **Searching and splitting** (`mz_strm.c`, `mz_strm_split.c`). The sliding-window search is first-occurrence
  search; the splitter conserves the byte stream.
- **The encryption streams** (`mz_strm_wzaes.c`, `mz_strm_pkcrypt.c`, `mz_crypt.c`). Round trips for every
  chunking on both sides, the key derivation of section 5.2 of RFC 8018, and the CRC-32 of section 8 of
  RFC 1952. AES and HMAC-SHA1 are parameters, of which only the output length is assumed.

`BaseStream.dfy` fixes the stream underneath: reads are short only at the end of the file, writes are
complete, and writing beyond the end fills the gap with zeros. Where the source updates in place, so
does the model: classes with `modifies` clauses, arrays for fixed buffers, loops with invariants.

## Files

| file | content |
|---|---|
| `MinTerm.dfy`, `ImplicantTable.dfy`, `PrimeImplicants.dfy` | terms, one merge round, all prime implicants |
| `Charts.dfy`, `PrimeChart.dfy` | covers and what the reductions do to them, the chart |
| `Grids.dfy`, `Trails.dfy`, `Minimizer.dfy` | the order of the reductions does not matter, the runs of the loop, the minimizer |
| `Wildcard.dfy`, `SubcaseTrees.dfy`, `Subcases.dfy`, `MultiLaneAtomic.dfy` | doctest |
| `BaseStream.dfy`, `BufferedStream.dfy`, `StreamFind.dfy`, `SplitStream.dfy` | streams |
| `Powers.dfy`, `Crc32.dfy`, `Pbkdf2.dfy`, `PkCrypt.dfy`, `AesCtr.dfy`, `WzAes.dfy` | encryption |

## Model

| member | source | states |
|---|---|---|
| MinTerms.ValuesExact | external/minbool/minbool.h:69-82 | `foreach_value` calls back with exactly the assignments on which the term is true, each once |
| MinTerms.EvalProduct | external/minbool/minbool.h:309-316 | the walk over the bits decides whether the product is true on the assignment |
| MinTerms.EvalBoolean | external/minbool/minbool.h:306-320 | true iff some product of the sum is true on the assignment |
| MinTerms.CombineSwap | external/minbool/minbool.h:64-67 | combining two terms gives the same term whichever is combined with the other |
| ImplicantTables.ImplicantTable.SumGroups | external/minbool/minbool.h:119-122 | the histogram's running sum holds the end of every popcount group |
| ImplicantTables.ImplicantTable.Distribute | external/minbool/minbool.h:125-126 | the second pass leaves a permutation of the input, and `groups` delimits exactly the runs of equal popcount |
| ImplicantTables.ImplicantTable.Fill | external/minbool/minbool.h:118-127 | the counting sort as a whole: a permutation, grouped by popcount |
| ImplicantTables.GroupOf | external/minbool/minbool.h:118-127 | conversely, every term lies in the run of its own popcount |
| ImplicantTables.ImplicantTable.Combine | external/minbool/minbool.h:129-143 | the results are exactly the merges of pairs that differ in one bit, and exactly the terms with a partner get marked, although only neighbouring groups are compared |
| ImplicantTables.ImplicantTable.Primes | external/minbool/minbool.h:145-150 | adds exactly the unmarked terms |
| PrimeImplicants.MergeIsImplicant | external/minbool/minbool.h:64-67 | merging two implicants with r dashes gives an implicant with r + 1 dashes that properly contains both |
| PrimeImplicants.SplitImplicant | external/minbool/minbool.h:64-67 | the converse: opening any dash of an implicant gives two implicants that merge back to it |
| PrimeImplicants.PartnerIffNotPrime | external/minbool/minbool.h:129-150 | in a complete round, a term stays unmarked iff no larger implicant contains it |
| PrimeImplicants.NextRound | external/minbool/minbool.h:293-302 | if a round holds every implicant with r dashes, its merges are every implicant with r + 1 dashes |
| PrimeImplicants.EmptyRound | external/minbool/minbool.h:293 | an empty round means that no implicant has that many dashes or more, so stopping loses nothing |
| PrimeImplicants.PrimeAbove | external/minbool/minbool.h:289-304 | every implicant is contained in a maximal one |
| PrimeImplicants.MergeRound | external/minbool/minbool.h:294-301 | one turn of the loop takes the round invariant from r to r + 1 |
| PrimeImplicants.FindPrimes | external/minbool/minbool.h:289-304 | the result holds exactly the maximal implicants, a minterm as often as it was given and every other prime once; the loop takes exactly one turn more than the largest number of dashes in an implicant, and none if there is no implicant |
| Charts.EssentialsNoWorse | external/minbool/minbool.h:194-212 | every cover contains every essential prime, so taking them all costs no optimality |
| Charts.StruckKeeps | external/minbool/minbool.h:206-210 | a cover of the columns left, with the primes taken, covers all columns |
| Charts.DroppedColumnsKeep | external/minbool/minbool.h:239-251 | deleting dominating columns leaves the set of covers as it was |
| Charts.DroppedRowsKeep | external/minbool/minbool.h:263-275 | deleting dominated rows leaves the minimum cover size as it was |
| Elimination.Eliminate | external/minbool/minbool.h:239-251 | in any iteration order, with deletions in the middle of the iteration: what is kept is an outcome of the double loop in which each key still there deletes one other key that it dominates, if there is any; a change is reported exactly if something dominates something else |
| Elimination.CanLeaveEliminates | external/minbool/minbool.h:239-251 | of every such outcome: whatever is deleted is dominated by something kept |
| Elimination.Transpose | external/minbool/minbool.h:253-261 | the result lists k under e exactly as often as the map lists e under k, and no key is lost or made up |
| Elimination.Tally | external/minbool/minbool.h:216-220 | every listed term is counted once per occurrence |
| Elimination.PickMax | external/minbool/minbool.h:222-229 | the term picked has the largest count |
| PrimeCharts.KeptRows | external/minbool/minbool.h:253-283 | transposing, eliminating and transposing back keeps the chart well formed: no column empty, each listing exactly the alive primes that cover it |
| PrimeCharts.RowsIrreducibleIs | external/minbool/minbool.h:263-275 | no transposed list includes another exactly if no prime is listed at least as often as another in every column |
| PrimeCharts.ColumnPassKeeps | external/minbool/minbool.h:239-251 | every outcome of the first half of `simplify` has the covers of the chart it came from |
| PrimeCharts.RowPassKeeps | external/minbool/minbool.h:253-283 | every outcome of the second half has the minimum cover size of the chart it came from, and is well formed |
| PrimeCharts.PrimeChart.Fill | external/minbool/minbool.h:179-187 | under every covered value, the primes that cover it, each as often as it was given |
| PrimeCharts.PrimeChart.RemoveColumns | external/minbool/minbool.h:189-192 | exactly the given values lose their columns |
| PrimeCharts.PrimeChart.RemoveEssentials | external/minbool/minbool.h:194-212 | takes exactly the essential primes, each once, and strikes exactly the columns they cover |
| PrimeCharts.PrimeChart.RemoveHeuristic | external/minbool/minbool.h:214-234 | takes a prime that is listed most often, occurrences counted, and strikes exactly the columns it covers |
| PrimeCharts.PrimeChart.DropColumns | external/minbool/minbool.h:239-251 | the result is an outcome of the double loop over the columns; covers are kept, no cover gets larger, and a change is reported exactly if one column includes another |
| PrimeCharts.PrimeChart.DropRows | external/minbool/minbool.h:253-283 | the result is an outcome of the double loop over the rows, compared by how often each column lists them; the same columns remain, none becomes empty, the minimum cover size stays, and a change is reported exactly if one row includes another |
| PrimeCharts.PrimeChart.Simplify | external/minbool/minbool.h:236-286 | every cover of the reduced chart covers the old one, the minimum cover size is unchanged, no column becomes empty or comes back, and a change, reported exactly if a column or a row includes another, shrinks columns plus rows |
| Grids.Diamond | external/minbool/minbool.h:194-286 | any two exact reductions that apply lead to charts that at most one more reduction each makes equal, or that are equal but for the names of two columns or two rows |
| Grids.MoveEquisolvable | external/minbool/minbool.h:194-286 | no exact reduction, whichever is made, changes whether the reductions alone can empty the chart |
| Grids.DoubledUnsolvable | external/minbool/minbool.h:194-286 | a column that lists one row only, but more than once, with that row listed nowhere else, is never removed by exact reductions |
| Trails.StuckUnsolvable | external/minbool/minbool.h:365-368 | a chart to which no exact reduction applies cannot be emptied by them |
| Trails.EssentialsSuffice | external/minbool/minbool.h:194-212 | a chart in which every column lists an essential prime can |
| Trails.PassStep | external/minbool/minbool.h:365-370 | every pass of the loop keeps covers; one without the fallback costs no optimality and leaves it as it was whether the reductions alone can empty the chart |
| Trails.TrailSolves | external/minbool/minbool.h:364-370 | every run of the loop that ends does so with a cover; it used the fallback if and only if no order of exact reductions empties the first chart, and if it did not, the cover is a smallest one |
| Trails.RunsAgree | external/minbool/minbool.h:364-370 | two runs on one chart, whatever order their loops took, both use the fallback or neither does, and without it their solutions have the same number of terms |
| Trails.EitherOfTwo | external/minbool/minbool.h:263-283 | with two primes tied for one column, there is a run that ends with either |
| Minimizer.CheckSolution | external/minbool/minbool.h:322-339 | accepts exactly the sums that are true on every on-value and false on every value in neither list |
| Minimizer.ReduceOnce | external/minbool/minbool.h:365-370 | one pass: the essential primes, an outcome of each half of `simplify`, then the fallback exactly if the chart is not empty, no column lists just one prime and no column or row includes another; it keeps covers, makes the chart smaller, and without the fallback keeps optimality |
| Minimizer.SolveChart | external/minbool/minbool.h:364-370 | the loop makes such passes until the chart is empty, and ends with a cover of the whole chart, minimum unless the fallback ran, which it did if and only if no order of exact reductions empties the chart |
| Minimizer.SumToCover | external/minbool/minbool.h:358-362 | a sum of arbitrary implicants can be replaced by a cover of primes with no more terms |
| Minimizer.CoverToSum | external/minbool/minbool.h:358-370 | a cover of the chart is a sum of implicants true on every value it must be true on |
| Minimizer.InitialDecided | external/minbool/minbool.h:352-362 | the lists decide the first chart up to the order in its columns, and so whether the fallback is needed |
| Minimizer.RepeatedIsDoubled | external/minbool/minbool.h:352-362 | an on-value given twice, no don't-care and without neighbours, has a column that lists one prime twice |
| Minimizer.FallbackIsDecided | external/minbool/minbool.h:352-370 | the fallback is used for these lists if and only if no order of exact reductions empties the chart they give; never if every column lists an essential prime, always if an on-value without neighbours, no don't-care, is given twice |
| Minimizer.MinimizeOne | external/minbool/minbool.h:346-350 | with at most one on-value the solution is its minterm, or empty, and no sum has fewer terms |
| Minimizer.MinimizeBoolean | external/minbool/minbool.h:341-374 | for all lists: the solution uses implicants of the two lists only, covers every on-value that is not also a don't-care, and unless the fallback ran has the fewest terms among all such sums; with two or more on-values the fallback ran if and only if no order of exact reductions empties the chart of these lists, so never if every column of it lists an essential prime, and always if an on-value without neighbours, no don't-care, was given twice; with disjoint lists, or at most one on-value, the final assertion cannot fail, and with two or more on-values all listed as don't-care it always does |
| Minimizer.OverlapUndecided | external/minbool/minbool.h:358-372 | for lists that overlap in part the lists do not decide: an input on which one run of the loop ends with a sum that passes the final assertion and another run, on the same chart, with one that does not |
| Wildcard.StarFree | external/argh/doctest.h:3694-3708 | a match of a stretch without stars consumes one character per pattern character |
| Wildcard.ForgetStar | external/argh/doctest.h:3695-3700 | once a later star is reached, starts after the earlier one need not be remembered |
| Wildcard.NoneLater | external/argh/doctest.h:3694-3714 | at the end of the string no later start has enough characters left |
| Wildcard.WildCmp | external/argh/doctest.h:3681-3715 | true iff the string matches under the meaning of `*` and `?`, for all strings and patterns, in both case modes; it terminates |
| Wildcard.StarlessMatches | external/argh/doctest.h:3685-3692 | what a pattern without `*` means: same length, and at every place `?` or the same character, in the case-insensitive mode up to the case of the letters with codes 65 to 90 |
| Wildcard.PlainMatches | external/argh/doctest.h:3681-3715 | without `?` either, a case-sensitive match is equality of strings, and a case-insensitive one equality up to the case of those letters |
| Wildcard.MatchesAppend | external/argh/doctest.h:3681-3715 | two patterns in a row match exactly what can be cut into a match of each |
| Wildcard.StarMatches | external/argh/doctest.h:3694-3700 | a lone `*` matches every string |
| Wildcard.CaseMatters | external/argh/doctest.h:3686-3702 | what matches case-sensitively also matches case-insensitively |
| Wildcard.MatchesAny | external/argh/doctest.h:3727-3735 | true iff some filter matches, or there is none and that counts as a match |
| SubcaseTrees.LeavesExact | external/argh/doctest.h:3739-3798 | the specification itself: the listed paths are exactly the subcases with no subcase inside |
| SubcaseTrees.LeavesDistinct | external/argh/doctest.h:3739-3798 | and none is listed twice |
| SubcaseTrees.EndsDistinct | external/argh/doctest.h:3739-3798 | no two runs end at the same stack, whatever the tree |
| SubcaseTrees.EndsAreLeaves | external/argh/doctest.h:3759-3763 | the stacks at which the runs end are the leaves, in order, if and only if no two siblings have the same signature |
| SubcaseTrees.RepeatedSibling | external/argh/doctest.h:3759-3763 | two siblings with one signature: the second is never entered and costs a run that enters nothing |
| SubcaseTrees.DoneStep | external/argh/doctest.h:3776-3782 | one more run completes exactly the subcases whose last run it is, and re-entry is needed exactly if runs are left |
| SubcaseTrees.PrunedPaths | external/argh/doctest.h:3744-3750 | the subcases left visible are exactly those whose name, and the name of every subcase around them, matches a wanted filter, if there is one, and no unwanted filter, as far as the level is below the limit |
| SubcaseTrees.NothingHidden | external/argh/doctest.h:3744-3750 | without filters, and from the level limit on, the test is left as it is |
| Subcases.Context.Enter | external/argh/doctest.h:3739-3770 | the constructor enters iff the filters show the subcase, nothing at this level was entered in this run, and the stack has not passed; a skipped sibling asks for re-entry |
| Subcases.Context.Leave | external/argh/doctest.h:3776-3782 | the destructor marks the stack as passed iff nothing was skipped |
| Subcases.FilteredRuns | external/argh/doctest.h:3739-3770 | only subcases so admitted are ever started, and if visible siblings have distinct signatures all of them are |
| Subcases.UnwantedNeverStarts | external/argh/doctest.h:3747-3748 | below the level limit, nothing that matches an unwanted filter is started |
| Subcases.WantedAlone | external/argh/doctest.h:3745-3748 | a subcase that matches a wanted filter and no unwanted one is started when it is the whole test |
| Subcases.Context.Execute | external/argh/doctest.h:3739-3798 | run k starts exactly the subcases on the way to the k-th end, marks exactly what it completes and asks for re-entry exactly if runs are left |
| Subcases.Context.RunTestCase | external/argh/doctest.h:6460-6510 | for every tree and all filters: the whole sequence of runs; it visits every root-to-leaf path once, depth first, and stops after as many runs as there are leaves, if and only if sibling signatures are distinct; one run when no subcase is visible; only what the filters admit, by the meaning of their patterns, is started, and all of it if the signatures are distinct |
| MultiLaneAtomics.MultiLaneAtomic.FetchAdd | external/argh/doctest.h:3073-3075 | changes the caller's lane only, and the total by the amount; what is returned is the lane's value |
| MultiLaneAtomics.MultiLaneAtomic.Load | external/argh/doctest.h:3083-3089 | alone, returns the total of all lanes |
| MultiLaneAtomics.MultiLaneAtomic.Store | external/argh/doctest.h:3096-3102 | alone, makes the first lane the stored value and the others zero, so that the total is the stored value |
| MultiLaneAtomics.LoadExact | external/argh/doctest.h:3073-3089 | in every interleaving, a load returns the total at its start plus exactly the adds that hit lanes it had not read |
| MultiLaneAtomics.LoadBounds | external/argh/doctest.h:3073-3089 | with non-negative adds, the result lies between the totals at the start and at the end of the load |
| MultiLaneAtomics.OneAmountLinearizable | external/argh/doctest.h:3069-3089 | if every add is zero or one fixed amount, of either sign, the result is the total at some instant during the load |
| MultiLaneAtomics.TwoAmountsNotLinearizable | external/argh/doctest.h:3073-3089 | for any two different amounts other than zero and any number of lanes from two on, an interleaving in which the load returns a value the counter never had |
| MultiLaneAtomics.LinearizableIffOneAmount | external/argh/doctest.h:3069-3089 | for every set of amounts: all loads in all interleavings are linearizable if and only if the set holds at most one amount other than zero |
| BufferedStreams.BufferedStream.constructor | external/minizip-ng-4.2.1/mz_strm_buf.c:60-77 | opening drops the caches and sets the cached position to zero, which is right exactly if the base stands at the start of the file |
| BufferedStreams.BufferedStream.Flush | external/minizip-ng-4.2.1/mz_strm_buf.c:84-115 | pending bytes reach the base stream; the file as seen by the user does not change |
| BufferedStreams.BufferedStream.Read | external/minizip-ng-4.2.1/mz_strm_buf.c:117-183 | delivers the bytes of the user's file, short only at its end, whatever the caches hold: from the user's position, except that with bytes pending it starts where the cached position says |
| BufferedStreams.BufferedStream.Write | external/minizip-ng-4.2.1/mz_strm_buf.c:185-245 | the user's file changes by exactly the bytes written, at the user's position, except that with bytes read ahead it is where the cached position says; if that is negative the write is refused |
| BufferedStreams.BufferedStream.Tell | external/minizip-ng-4.2.1/mz_strm_buf.c:247-261 | returns the user's position, and makes the cached position right again |
| BufferedStreams.BufferedStream.Seek | external/minizip-ng-4.2.1/mz_strm_buf.c:263-331 | an absolute seek sets the user's position and changes nothing else, but a hit in a cache is off by as much as the cached position is; a negative offset is refused after the caches are dropped, and leaves the cached position wrong |
| BufferedStreams.BufferedStream.SeekFromHere | external/minizip-ng-4.2.1/mz_strm_buf.c:293-331 | a relative seek goes where it should exactly unless bytes are pending behind the user's place and it leads past them; without a cache it leaves the cached position wrong |
| BufferedStreams.BufferedStream.SeekFromEnd | external/minizip-ng-4.2.1/mz_strm_buf.c:317-331 | with bytes pending the offset is ignored, otherwise the cached position is left wrong; and exactly when it goes where it should |
| BufferedStreams.BufferedStream.Close | external/minizip-ng-4.2.1/mz_strm_buf.c:334-356 | afterwards the base holds the user's file |
| BufferedStreams.Apply | external/minizip-ng-4.2.1/mz_strm_buf.c:84-356 | an operation through the cache, a seek of any kind included, gives the answer, the file and the position it gives without, if and only if it does not get to see a wrong cached position, loses no place in a cache to a refused seek, skips no bytes pending and does not have its offset ignored |
| BufferedStreams.Session | external/minizip-ng-4.2.1/mz_strm_buf.c:72-356 | refinement over whole sessions of reads, writes, tells, absolute, relative and end-relative seeks: same answers and same final file as without the cache, if every operation comes at a time when, from the operations before it, the cache is sure to follow |
| BufferedStreams.RecoversSteady | external/minizip-ng-4.2.1/mz_strm_buf.c:72-356 | this is so for all sessions of reads, writes, tells and absolute seeks in which a refused seek is followed by another at once |
| BufferedStreams.MisledAfterRefusal | external/minizip-ng-4.2.1/mz_strm_buf.c:263-291 | after a refused seek to -k, reading on brings the byte k places too far |
| BufferedStreams.MisledAfterRelativeSeek | external/minizip-ng-4.2.1/mz_strm_buf.c:293-331 | so it does after a relative seek by k |
| BufferedStreams.RightAfterTell | external/minizip-ng-4.2.1/mz_strm_buf.c:247-261 | asking for the position right after the refusal avoids this |
| BaseStreams.OverlayInside | external/minizip-ng-4.2.1/mz_strm_buf.c:212-242 | writing into bytes still pending, then writing those out, is writing both directly |
| StreamFind.Scan | external/minizip-ng-4.2.1/mz_strm.c:268-281 | the first occurrence in the window, if there is one |
| StreamFind.Search | external/minizip-ng-4.2.1/mz_strm.c:258-292 | window by window: no occurrence is missed where two windows meet, none is reported out of order |
| StreamFind.Find | external/minizip-ng-4.2.1/mz_strm.c:237-295 | found iff the pattern lies wholly within the next `max_seek` bytes, at its first place there, with the stream left there; a pattern of 1024 bytes or more is refused |
| SplitStreams.DisksArePieces | external/minizip-ng-4.2.1/mz_strm_split.c:252-306 | with every disk but the last full, the disks are the consecutive pieces of the byte stream |
| SplitStreams.SplitWriter.OpenDisk | external/minizip-ng-4.2.1/mz_strm_split.c:64-139 | opening a disk for writing empties its file, and the first of several disks gets the magic number |
| SplitStreams.MagicNumber | external/minizip-ng-4.2.1/mz_strm_split.c:25 | the four bytes at the start of the first disk are the number 0x08074b50, least significant byte first |
| SplitStreams.SplitWriter.ChangeDisk | external/minizip-ng-4.2.1/mz_strm_split.c:268-279 | a full disk is left for the next, the directory gets its own file, and no byte written is touched |
| SplitStreams.SplitWriter.Write | external/minizip-ng-4.2.1/mz_strm_split.c:252-306 | numbered disks together hold what they held, followed by the bytes written, all but the last exactly full; the central directory, and everything if nothing is split, goes to one file whatever its size, and an empty directory leaves none |
| SplitStreams.SplitReader.OpenDisk | external/minizip-ng-4.2.1/mz_strm_split.c:64-139 | a missing disk or directory is reported as such, a first disk without the magic number as malformed |
| SplitStreams.SplitReader.Read | external/minizip-ng-4.2.1/mz_strm_split.c:214-250 | delivers the next bytes, which stand together on one disk, and the missing-disk error exactly when nothing is left; a read after that error delivers the last disk again, from its start; the central directory file is read to its end |
| SplitStreams.WriteAll | external/minizip-ng-4.2.1/mz_strm_split.c:173-306 | any sequence of writes: magic number and all bytes, in full disks |
| SplitStreams.ReadAll | external/minizip-ng-4.2.1/mz_strm_split.c:214-250 | without a directory file opening fails; otherwise reading in pieces of any size until the error gives everything behind the magic number |
| SplitStreams.RoundTrip | external/minizip-ng-4.2.1/mz_strm_split.c:64-306 | reading back what was written in any pieces gives exactly those bytes, and fails to open exactly if the directory was empty |
| SplitStreams.UnsplitRoundTrip | external/minizip-ng-4.2.1/mz_strm_split.c:64-306 | so it does with a disk size of zero, where all bytes go to one file without a magic number |
| Crc32.LookupCorrect | external/minizip-ng-4.2.1/mz_crypt.c:51-80 | each of the 256 entries of the table is what eight steps of the bitwise reflected division make of its index |
| Crc32.TableStepCorrect | external/minizip-ng-4.2.1/mz_crypt.c:84 | one table look-up equals eight steps of the bitwise reflected division, for every register and byte |
| Crc32.Crc32Update | external/minizip-ng-4.2.1/mz_crypt.c:51-90 | the table loop computes the bitwise CRC-32 of every byte sequence from every start value |
| Crc32.CrcChains | external/minizip-ng-4.2.1/mz_crypt.c:81-90 | updating over two pieces in turn is updating over their concatenation |
| Crc32.NotFlips | external/minizip-ng-4.2.1/mz_crypt.c:81-90 | the inversions before and after flip every bit |
| Crc32.CheckValue | external/minizip-ng-4.2.1/mz_crypt.c:51-90 | the checksum of the digits 1 to 9 is hexadecimal cbf43926 |
| Pbkdf2.Turn | external/minizip-ng-4.2.1/mz_crypt.c:147-158 | one turn hashes the first k bytes of the last hash and adds the result in |
| Pbkdf2.OneBlock | external/minizip-ng-4.2.1/mz_crypt.c:135-159 | one block is U_1 xor ... xor U_c, although k is first the length of the block number and then of the hash |
| Pbkdf2.DeriveKey | external/minizip-ng-4.2.1/mz_crypt.c:95-179 | the key is exactly the first bytes of T_1, T_2, ..., for every length and iteration count, zero included |
| Pbkdf2.BlockNumberIs | external/minizip-ng-4.2.1/mz_crypt.c:141-144 | the four bytes hashed behind the salt are the block number, most significant byte first |
| Pbkdf2.FirstBlock | external/minizip-ng-4.2.1/mz_crypt.c:135-159 | with one iteration the first twenty bytes are the HMAC of the salt followed by 0, 0, 0, 1 |
| Pbkdf2.SecondIteration | external/minizip-ng-4.2.1/mz_crypt.c:146-159 | with two, the HMAC of that is added to it |
| PkCrypt.EncodeAppend | external/minizip-ng-4.2.1/mz_strm_pkcrypt.c:198-228 | encoding in pieces is encoding the whole |
| PkCrypt.DecodeEncode | external/minizip-ng-4.2.1/mz_strm_pkcrypt.c:56-60 | decoding with the keys the writer started from gives back the plain bytes |
| PkCrypt.LockstepRead | external/minizip-ng-4.2.1/mz_strm_pkcrypt.c:177-196 | after any read, the reader's keys are those the writer had at that byte |
| PkCrypt.PkStream.InitKeys | external/minizip-ng-4.2.1/mz_strm_pkcrypt.c:91-102 | the keys are the start values advanced by the password |
| PkCrypt.PkStream.OpenWrite | external/minizip-ng-4.2.1/mz_strm_pkcrypt.c:106-168 | the file begins with the encoded header: ten random bytes and the verifier |
| PkCrypt.PkStream.OpenRead | external/minizip-ng-4.2.1/mz_strm_pkcrypt.c:106-168 | opening succeeds iff the decoded header ends in the verifier, whose first byte counts for versions below 2 only; short files and wrong verifiers are told apart |
| PkCrypt.PkStream.Write | external/minizip-ng-4.2.1/mz_strm_pkcrypt.c:198-228 | appends the encoding of all bytes, whatever the buffer size, and advances the keys by them |
| PkCrypt.PkStream.Read | external/minizip-ng-4.2.1/mz_strm_pkcrypt.c:177-196 | decodes the next bytes, never beyond the entry |
| PkCrypt.EncryptAll | external/minizip-ng-4.2.1/mz_strm_pkcrypt.c:106-228 | the file does not depend on the chunking of the writes |
| PkCrypt.DecryptAll | external/minizip-ng-4.2.1/mz_strm_pkcrypt.c:106-196 | reading such a file in pieces of any size gives the plain bytes |
| PkCrypt.RoundTrip | external/minizip-ng-4.2.1/mz_strm_pkcrypt.c:106-228 | for every cipher of this form, password, header, verifier and chunking: the header check passes and the plain bytes come back |
| PkCrypt.PkwareRoundTrip | external/minizip-ng-4.2.1/mz_strm_pkcrypt.c:56-228 | the same for the keys of sections 6.1.5 to 6.1.7 of the PKWARE APPNOTE |
| PkCrypt.UpdateKeysIs | external/minizip-ng-4.2.1/mz_strm_pkcrypt.c:75-89 | the key update of section 6.1.5 of the PKWARE APPNOTE: table steps of the checksum for the first and last key, and over the integers, modulo 2 to the 32, the linear congruence for the middle one |
| PkCrypt.DecryptByteIs | external/minizip-ng-4.2.1/mz_strm_pkcrypt.c:64-73 | the key byte is the second lowest byte of t * (t xor 1), where t is the last key with bit 1 set |
| PkCrypt.KnownAnswer | external/minizip-ng-4.2.1/mz_strm_pkcrypt.c:56-102 | from the start values, under the password "a", a first byte of zero is encrypted to hexadecimal 33 |
| AesCtr.IncrementNonce | external/minizip-ng-4.2.1/mz_strm_wzaes.c:161-163 | adds one with carry to the first eight bytes, wrapping around, and leaves the other eight |
| AesCtr.IncrementCounter | external/minizip-ng-4.2.1/mz_strm_wzaes.c:161-163 | incrementing the bytes of n gives the bytes of n + 1 |
| AesCtr.CounterWraps | external/minizip-ng-4.2.1/mz_strm_wzaes.c:161-163 | k counter bytes repeat after 2 to the 8 k blocks |
| AesCtr.CounterExact | external/minizip-ng-4.2.1/mz_strm_wzaes.c:161-163 | and until then hold the counter, least significant byte first |
| AesCtr.CtrState.NextByte | external/minizip-ng-4.2.1/mz_strm_wzaes.c:158-171 | the byte mixed in at global position i is byte i of the key stream |
| AesCtr.CtrState.Encrypt | external/minizip-ng-4.2.1/mz_strm_wzaes.c:151-176 | the buffer is mixed in place with the key stream from the global position on |
| AesCtr.FirstKeystream | external/minizip-ng-4.2.1/mz_strm_wzaes.c:157-171 | the key stream starts with the cipher applied to a one followed by fifteen zeros |
| BaseStreams.XorBits | external/minizip-ng-4.2.1/mz_strm_wzaes.c:171 | a bit of the mixed byte is one exactly if the two bits differ |
| AesCtr.MaskAppend | external/minizip-ng-4.2.1/mz_strm_wzaes.c:151-176 | mixing in pieces is mixing the whole |
| AesCtr.MaskTwice | external/minizip-ng-4.2.1/mz_strm_wzaes.c:151-176 | encryption and decryption are the same operation |
| WzAes.WzAesStream.SetKeys | external/minizip-ng-4.2.1/mz_strm_wzaes.c:95-114 | cipher key, authentication key and verifier, one behind the other, are the first bytes that PBKDF2 derives with 1000 iterations, the keys of equal length and the verifier of two bytes |
| WzAes.KeyPieces | external/minizip-ng-4.2.1/mz_strm_wzaes.c:95-114 | the same of the keys by which writing, reading and the round trip are stated |
| WzAes.Lengths | external/minizip-ng-4.2.1/mz_strm_wzaes.c:19-25 | for strengths 1, 2 and 3 the keys have 16, 24 and 32 bytes and the salts 8, 12 and 16; ten bytes are kept of the authentication code |
| WzAes.PasswordLengths | external/minizip-ng-4.2.1/mz_strm_wzaes.c:78-84 | passwords of up to 128 bytes are used as they are, longer ones are refused as long as their length fits in 16 bits |
| WzAes.WzAesStream.OpenWrite | external/minizip-ng-4.2.1/mz_strm_wzaes.c:56-142 | refuses exactly the unacceptable parameters; otherwise the file begins with salt and verifier |
| WzAes.WzAesStream.OpenRead | external/minizip-ng-4.2.1/mz_strm_wzaes.c:56-142 | which of the four outcomes a file gives, exactly; on success both keys are in force |
| WzAes.WzAesStream.Write | external/minizip-ng-4.2.1/mz_strm_wzaes.c:200-229 | the masked bytes go to the file and into the authentication code, whatever the buffer size |
| WzAes.WzAesStream.Read | external/minizip-ng-4.2.1/mz_strm_wzaes.c:178-198 | authenticates the file's bytes, unmasks them in place, and never reads into the last ten bytes of the entry |
| WzAes.WzAesStream.Close | external/minizip-ng-4.2.1/mz_strm_wzaes.c:241-266 | writes the authentication code, or accepts iff the one in the file is that of what was read |
| WzAes.EncryptAll | external/minizip-ng-4.2.1/mz_strm_wzaes.c:56-266 | the entry does not depend on the chunking of the writes |
| WzAes.DecryptAll | external/minizip-ng-4.2.1/mz_strm_wzaes.c:56-266 | for every file and every chunking of the reads: the outcome of opening, the bytes delivered, and whether closing accepts the authentication code or finds none |
| WzAes.RoundTrip | external/minizip-ng-4.2.1/mz_strm_wzaes.c:56-266 | for every cipher, authentication code, password, salt and chunking: opening succeeds, the plain bytes come back and the authentication code is accepted |

Some things the code does differently from what one might expect, and the model with it:

- `mz_stream_wzaes_open` keeps the password length in 16 bits before comparing it with 128, so it uses only
  a part of a password longer than 65535 bytes (`Used` and `Acceptable` in `WzAes.dfy`).
- An on-value that is also listed as don't-care is not required to be covered: its column is removed
  (`Target` in `Minimizer.dfy`).
- An on-value given twice makes the minimizer fall back on the heuristic if it has no neighbours (`Repeats` in
  `Minimizer.dfy`).
- The cached position of a buffered stream is wrong after a refused seek, after a relative or end-relative one,
  and after opening to append, until the next tell or the next absolute seek outside the caches (`Drift` in
  `BufferedStream.dfy`).
- Reading a split archive on after the missing-disk error reads its last disk again (`Again` in `SplitStream.dfy`).

## Left out

- Minimizer.MinimizeBoolean: for lists that overlap without all on-values being don't-cares, the lists do not decide whether the final assertion holds (Minimizer.OverlapUndecided). What is then stated is that the sum is true on the on-values that are not don't-cares and false outside the lists.
- MinTerms.ValuesExact: values are sets of bit positions below n; the integer width, the hash function and the behaviour of `1 << Nbits` for wide types are not modelled.
- PrimeImplicants.SortUnique: the order `std::sort` gives is left open; `std::includes` on lists sorted by one order is inclusion of multisets.
- Output operators of minbool and `count_literals`.
- Subcases.Context.RunTestCase: exceptions thrown in a test, the limit on failed assertions, reporters and signal handling are not modelled; a test body enters the same subcases in every run.
- MultiLaneAtomics.LoadExact: lanes are unbounded integers, so wrap-around is not modelled; steps are sequentially consistent; a concurrent `store` and the assignment of threads to lanes are left out.
- BufferedStreams.BufferedStream.SeekFromHere: a relative seek to before the start of a cache, for which the code makes an index into the cache negative.
- BufferedStreams.Session: sessions with a relative or end-relative seek while bytes may be pending, or with one backwards while bytes may have been read ahead, where what happens depends on what the caches hold; for these the single operation is stated exactly (BufferedStreams.Apply). The hit and miss statistics.
- StreamFind.Find: `mz_stream_find_reverse` is not modelled; it re-reads bytes that it has also carried over.
- SplitStreams.WriteAll: a disk size of 1 to 3, smaller than the magic number, which makes the number of bytes available negative and hands it to the base stream; seeking, file names and the totals kept for reading.
- PkCrypt.PkStream.Read: an entry declared shorter than its header, for which the number of bytes to read becomes negative and its meaning is that of the base stream.
- WzAes.WzAesStream.Read: likewise an entry declared shorter than its header and footer together; WzAes.DecryptAll covers such files by not reading from them.
- WzAes.WzAesStream.OpenRead: a missing password, a base stream that is not open, and modes that are neither read nor write.
- AES, HMAC-SHA1 and the random number generator are parameters; that another text gives another authentication code is not claimed.
- Failing reads, writes and allocations of the layers below; overflow of 32-bit and 64-bit sizes and positions.
- The zlib and lzma branches of `mz_crypt_crc32_update`; the other stream types of minizip-ng, its path functions and its ZIP container format.
- Everything else in the repository: the readout library itself, argh, the URI parser, the stream clients and the platform layers.
