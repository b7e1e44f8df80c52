# vsyncer: relaxation search, bitsequences and module mutation

vsyncer weakens the memory orderings of a program for as long as a model checker accepts it. This
project models that search and everything a verdict rests on, and proves what the result is worth.

- `Search`, `LinearRelaxation`, `DeltaDebugging`, `Speculation`: the search on sets of indices. The
  checker is an arbitrary reply function of the number of the check, the assignment and the deadline,
  so it stands for every checker, also one that answers differently each time. `InvalidPairs` adds the
  bit pairs that loads and stores cannot take to linear relaxation, `InvalidChunks` to delta debugging.
- `Reference`: what both searches compute, without a checker, a filter or a log, and that they do.
- `Shelter`, `Fallback`, `Termination`: exactly when delta debugging is right about the relaxed filter, when
  falling back from a timed-out solution costs minimality, and when the optimizer ends. An input is
  sheltered if each sequentially consistent load is the first or the last operation that has a 1-bit in
  it, and each sequentially consistent store is the last one.
- `Words`, `Bitseqs`, `Text`: packed bitsequences and their binary and hexadecimal text. A `uint64` is a
  number below 2^64, with the bitwise operators defined digit by digit.
- `Ordering`, `Encoding`, `Printing`, `WrapModule`: operations, selections, the encoding of orderings in
  bit pairs, mutation in place, and what a mutated module prints. `CompareExchange` says when printing a
  compare-exchange depends on what was printed before.
- `FilterSet`, `Driver`: the string-keyed filter and the driver on packed bitsequences and a mutable
  module. Each driver method ends in exactly the state the search functions describe, so the theorems
  about those are theorems about it. `Optimality` says what they mean for programs.
- `Replay`, `History`: the mutation history as a state machine and its replay on the original module.
- `Visitor`: the depth-first visit that replaces operations by wrappers in the lists it walks over.

A slice or a map that the source updates is a `seq`, `set` or `map` that a method reassigns; the
driver, filter, module, operation, history, analyzer and visitor objects are classes. Where the source
passes a callback, the loop that calls it is modelled together with it (`Translate` hands its values to
the loop of `Mutate`). A logger call named Fatal prints and goes on; the branches that contain one are
preconditions, or go on as the source does. Comments at core/bitseq.go:67 and core/bitseq.go:76 say that
such a call aborts the program; the model follows the code.

The instruction lists of `Visitor` are described by the position of each entry, a position being named
by the instruction parsed there; the entry itself is read when its turn comes, as in the source. Only what is
said about the order of meeting assumes that no instruction is in two places.

## Model

| member | source | states |
|---|---|---|
| Optimality.Optimize | cmd/vsyncer/optimize.go:93-131 | the optimize command with either strategy: it reports success exactly when the original module is correct, and then leaves a correct module with no ordering stronger than before; unless it fell back, the module is optimal with linear relaxation, and with delta debugging optimal if and only if there was nothing to relax or the fully relaxed module is not correct. For the atomic operations, by their kinds: the result only relaxes fences, read-modify-writes, compare-exchanges and atomic accesses, and every further relaxation of any of them is incorrect. Without a deadline, or with a tool that times out on correct modules only, the result is the one of the reference search, whatever the filter, the tool and the times (delta debugging with the relaxed filter: for a sheltered input whose full relaxation is incorrect). With a filter it always ends |
| Optimality.Conclude | cmd/vsyncer/optimize.go:101-131 | a result that is just the input is checked once more without a deadline, any other one counts as success; the module ends as the result says |
| Optimality.RunOptimal | optimizer/driver.go:128-174 | linear relaxation ends with a module such that every other one with the same operations and no stronger orderings is incorrect, and so is giving acquire to an operation that it gave release, whenever it runs without a deadline, or with a tool that times out on correct modules only, or from at most one 1-bit, or returns its first solution |
| Optimality.RunDelivers | optimizer/driver.go:128-174 | either strategy, any number of passes: from a correct module a run that ends gives a correct module that is nowhere stronger, and from an incorrect one it gives the input back |
| Optimality.RunOptimalDdmin | optimizer/driver_ddmin.go:13-62 | delta debugging under the same conditions, loads and stores included: the result is optimal if and only if the input is fully relaxed or the fully relaxed module is incorrect; the relaxed filter needs a sheltered input |
| Optimality.HonestIsTruthful | optimizer/driver.go:243-289 | a tool that is honest about module texts makes the check closure truthful about assignments: Invalid exactly for those the module cannot take |
| Optimality.SafeIsDownClosed | optimizer/filter.go:35-43 | if strengthening orderings never breaks a correct module, failure is downward closed among the valid assignments, which is what relaxed filtering relies on |
| Optimality.MinimalIffOptimal | optimizer/driver.go:4-5 | minimal among assignments by inclusion is the same as optimal among modules by strength of orderings |
| Optimality.OptimalByKind | module/wrap_module.go:55-77 | for the atomic operations optimality can be said by kinds alone: every module whose fences, read-modify-writes, compare-exchanges and atomic accesses have orderings that they can take and that are no stronger, all else being equal, is incorrect |
| Optimality.AcquireFirstIsKept | optimizer/driver_lr.go:22-30 | a sequentially consistent fence, read-modify-write or compare-exchange is left with release ordering only if acquire ordering in its place is incorrect |
| Optimality.RunAsExpected | optimizer/driver.go:128-174 | the result of such a run is the one of the reference search on the texts that are correct |
| Search.OneMinimalCertifies | optimizer/driver_lr.go:22-43 | suppressing every assignment that clears one bit is the same as suppressing every strictly weaker one |
| Search.InsertSound | optimizer/filter.go:27-43 | inserting a failing assignment the module can take keeps the filter from ever suppressing a correct one |
| Search.CheckNeverTwice | optimizer/driver.go:214-241 | a check of an assignment outside the filter keeps the property that nothing is checked again after its rejection |
| LinearRelaxation.TryEachSteps | optimizer/driver_lr.go:31-43 | trying the candidates of one operation accepts at most one, with its own check's status and while it is outside the filter; log and filter only grow, and only by weaker assignments |
| LinearRelaxation.TryEachCovers | optimizer/driver_lr.go:31-43 | a candidate that was passed over is below a filter entry, in every filter mode |
| LinearRelaxation.PairMinimal | optimizer/driver_lr.go:22-43 | after one operation, clearing either of its remaining bits gives an assignment below the filter |
| LinearRelaxation.FromSteps | optimizer/driver_lr.go:16-47 | the solutions form a chain strictly below the input, each accepted with the recorded status, and everything rejected is strictly weaker than the input |
| LinearRelaxation.FromOneMinimal | optimizer/driver_lr.go:18-44 | the invariant of the walk: clearing any bit already passed gives an assignment below the filter |
| LinearRelaxation.RelaxCertified | optimizer/driver_lr.go:16-47 | the minimality certificate: for the five known statuses and every filter mode, everything strictly weaker than the final assignment lies below a filter entry |
| LinearRelaxation.RelaxPrefers | optimizer/driver_lr.go:18-47 | the certificate of preference, for any checker and filter mode: operation by operation from the first on, clearing both bits comes before clearing the lower one, and that before clearing the upper one; whatever comes before the choice lies below a filter entry, and the choice was accepted |
| LinearRelaxation.FromFresh | optimizer/driver_lr.go:31-43 | the most relaxed solution is not in the filter the walk ends with |
| LinearRelaxation.FromNeverTwice | optimizer/driver_lr.go:31-43 | with a duplicate or relaxed filter a rejected assignment is never checked again |
| LinearRelaxation.RelaxCost | optimizer/driver_lr.go:18-44 | twice the number of checks is at most three times the number of 1-bits of the input |
| InvalidPairs.CandidatesValid | optimizer/driver_lr.go:22-30 | each candidate is valid or can only hide correct assignments that lie below the fully relaxed candidate, which is valid |
| InvalidPairs.TryEachSound | optimizer/driver_lr.go:28-43 | because the fully relaxed candidate is tried first, inserting invalid candidates keeps the filter sound |
| InvalidPairs.FromSound | optimizer/driver_lr.go:16-47 | from a valid assignment on, every valid assignment below a filter entry really fails, although invalid candidates are inserted too |
| InvalidPairs.RelaxMinimal | optimizer/driver_lr.go:16-47 | with failure downward closed among valid assignments only, nothing strictly weaker than the final assignment is correct |
| InvalidPairs.RelaxAcquireFirst | optimizer/driver_lr.go:22-30 | an operation that had both bits gives up acquire strength only if giving up release strength instead is not correct |
| Reference.RelaxIsGreedy | optimizer/driver_lr.go:16-47 | with a checker that accepts exactly the correct assignments, linear relaxation computes the greedy choice that looks at nothing but correctness, in every filter mode |
| Ordering.ValidDownClosed | core/ordering.go:36-45 | valid assignments are closed under weakening if and only if the selection has neither a load nor a store |
| Delta.SlicesBalanced | optimizer/delta.go:26-39 | for 1 <= n <= length: n non-empty chunks that concatenate to the input, sizes non-decreasing and differing by at most one |
| Delta.Subslices | optimizer/delta.go:26-39 | the loop that takes chunks off the front computes exactly these chunks, and none when there are too few elements |
| Delta.ComplementElements | optimizer/delta.go:59-67 | the complement of a chunk has the elements of all the others |
| Chunking.ChunksPartition | optimizer/driver_ddmin.go:19-26 | the chunks of an assignment partition its 1-bits into non-empty parts of almost equal size |
| Chunking.BatchShape | optimizer/driver_ddmin.go:24-47 | the candidates of a batch are strictly below the assignment and none is contained in another |
| Chunking.NablaIsComplement | optimizer/driver_ddmin.go:41-44 | the assignment without a chunk has the indices of the complement of that chunk |
| Chunking.SingleBits | optimizer/driver_ddmin.go:41-44 | with as many chunks as 1-bits, every clearing of a single bit is a candidate |
| DeltaDebugging.BatchIsExact | optimizer/driver_ddmin.go:24-57 | filtering a whole batch before any check is exact: consulting the filter for each candidate in turn gives the same checks, result and state |
| DeltaDebugging.RoundSteps | optimizer/driver_ddmin.go:24-57 | one granularity accepts at most one candidate, makes at most 2n checks, and otherwise leaves all complements below the filter |
| DeltaDebugging.RoundSize | optimizer/driver_ddmin.go:32-57 | the accepted candidate is at most half as large, or large enough for the granularity n-1 to go on with |
| DeltaDebugging.DdminSteps | optimizer/driver_ddmin.go:13-62 | the solutions form a chain strictly below the input, each accepted with the recorded status; with a filter the last one is not in it |
| DeltaDebugging.DdminNeverTwice | optimizer/driver_ddmin.go:13-62 | with a duplicate or relaxed filter a rejected assignment is never checked again |
| DeltaDebugging.DdminOneMinimal | optimizer/driver_ddmin.go:13-62 | ending on at least two 1-bits, clearing any single one gives an assignment below the filter |
| DeltaDebugging.DdminCertified | optimizer/driver_ddmin.go:13-62 | the certificate: for any checker and filter mode, everything strictly weaker than the final assignment except the fully relaxed one lies below a filter entry |
| DeltaDebugging.DdminCost | optimizer/driver_ddmin.go:13-62 | from granularity 2 at most Ones^2 + 5*Ones checks are made |
| DeltaDebugging.AcceptedPays | optimizer/driver_ddmin.go:34-54 | the check budget of a granularity covers its checks and the budget of the accepted candidate at its next granularity |
| InvalidChunks.TurnInnocent | optimizer/driver_ddmin.go:24-57 | trying a batch keeps the filter from hiding a correct assignment, and when every candidate is passed over, every one really fails; under the relaxed filter this needs each invalid candidate shielded by a valid one tried before it |
| InvalidChunks.ChunksShielded | optimizer/driver_ddmin.go:24-39 | for sheltered assignments an invalid chunk is a single bit, so it hides nothing but the fully relaxed assignment |
| InvalidChunks.NablasShielded | optimizer/driver_ddmin.go:41-57 | for sheltered assignments the valid way to weaken a load is tried before an invalid complement is inserted; for a store it has been refuted at a coarser granularity |
| InvalidChunks.ClearingsDecide | core/ordering.go:36-45 | over loads and stores too, when clearing each single bit of a valid assignment fails, everything strictly weaker fails |
| InvalidChunks.DdminInnocent | optimizer/driver_ddmin.go:13-62 | the whole search keeps the filter innocent, and ending on at least two 1-bits it has refuted the clearing of each one |
| InvalidChunks.DdminKeepsSome | optimizer/driver_ddmin.go:15-17 | the last bit is never cleared |
| InvalidChunks.DdminMinimal | optimizer/driver_ddmin.go:13-62 | with a truthful checker and failure downward closed among valid assignments, the result is minimal if and only if the input is fully relaxed or the fully relaxed assignment is incorrect: for every selection without a filter or with the duplicate one, and for sheltered inputs with the relaxed one |
| Reference.DdminIsTextbook | optimizer/driver_ddmin.go:13-62 | with such a checker delta debugging computes what the textbook algorithm without filter and batches does: first correct chunk and start over, else first correct complement and one part less, else twice as many parts; under the relaxed filter from sheltered inputs when the fully relaxed assignment is incorrect |
| Reference.RunIsExpected | optimizer/driver.go:128-174 | so without a deadline, or when only correct assignments time out, the result of a run does not depend on the filter, on how the checker comes to its answers, or on times |
| Shelter.ShelterIff | optimizer/driver_ddmin.go:24-57 | under the relaxed filter this equivalence holds for an input and all weaker ones if and only if the input is sheltered |
| Shelter.StoreHides | optimizer/driver_ddmin.go:34-39 | any sequentially consistent store followed by another 1-bit: a rejected chunk that the store cannot take hides a correct assignment |
| Shelter.LoadHides | optimizer/driver_ddmin.go:34-39 | the same for any sequentially consistent load between two other 1-bits |
| Speculation.DeadlineIsMean | optimizer/driver.go:176-191 | the new deadline: without a weight the old one plus the time of the recheck; with one it is unchanged after a recheck that was no longer, and otherwise the weighted mean, up to one unit and a thousandth of the difference, and between the two |
| Speculation.WeightShortens | optimizer/driver.go:183-190 | a larger weight of the old deadline never gives a later one |
| Speculation.DeadlineAddsUp | optimizer/driver.go:138-180 | without a weight, the deadline after any number of passes is the configured one plus the time of all failed rechecks |
| Speculation.NoSpeculation | optimizer/driver.go:155-159 | without a deadline there is one pass and no recheck, whatever the checker |
| Speculation.FallbackIsSecond | optimizer/driver.go:110-125 | after a failed recheck the second solution is returned if it is OK, and the search repeated if it timed out; no later one is ever returned |
| Speculation.SearchSteps | optimizer/driver.go:141-150 | what both strategies keep: a chain of accepted solutions, only weaker assignments rejected, and a best solution that is new to the filter |
| Speculation.RunSound | optimizer/driver.go:128-174 | a run that ends returns its input or a correct assignment that is weaker, never one that merely timed out, in any filter mode |
| Speculation.RunMinimal | optimizer/driver.go:128-174 | with linear relaxation every pass keeps the filter sound, and a run ending with its first solution ends with one below which nothing is correct, and in which acquire strength was given up only where release strength could not be |
| Speculation.RunMinimalDdmin | optimizer/driver.go:128-174 | with delta debugging, over any number of passes, such a run ends minimal if and only if there was nothing to relax or the fully relaxed assignment is incorrect |
| Speculation.RetryInserts | optimizer/driver.go:107-125 | each retry inserts a subset of the input that the filter did not hold |
| Speculation.RunTerminates | optimizer/driver.go:138-173 | with a duplicate or relaxed filter a run ends after at most 2^Ones passes, less one for each entry the filter already holds |
| Speculation.RunCost | optimizer/driver.go:138-173 | with either strategy, p passes make at most p * (Ones^2 + 5*Ones + 1) checks, rechecks included |
| Speculation.RunNeverTwice | optimizer/driver.go:138-173 | over a whole run, rechecks included, no rejected assignment is checked again |
| Fallback.FirstPassEnds | optimizer/driver.go:78-174 | without a deadline, or with a checker that times out on correct assignments only, the first pass ends the run with its first solution |
| Fallback.OneBitMinimal | optimizer/driver.go:107-125 | from at most one 1-bit linear relaxation is minimal even when it falls back |
| Fallback.ReliableIff | optimizer/driver.go:107-125 | linear relaxation is minimal with every truthful checker if and only if it runs without a deadline or from at most one 1-bit |
| Fallback.LrFallsBack | optimizer/driver.go:110-125 | for any other input there is a checker that makes it return the input although something weaker is correct |
| Fallback.ReliableDdminIff | optimizer/driver.go:107-125 | delta debugging is as minimal as without speculation, with every truthful checker, if and only if it runs without a deadline, or from at most one 1-bit, or from exactly the two of one load or store |
| Fallback.DdminFallsBack | optimizer/driver.go:110-125 | for any other input there is a checker that makes it return the input although something weaker is correct |
| Termination.AlwaysEndsIff | optimizer/driver.go:138-173 | for every weight, runs end with every truthful checker if and only if there is a filter, or no deadline, or the input has its 1-bits in one operation (linear relaxation) or at most two of them (delta debugging) |
| Termination.ShortPass | optimizer/driver.go:110-125 | a pass that finds at most one solution ends the run, whatever the checker says |
| Termination.LrEndless | optimizer/driver.go:138-173 | without a filter, from 1-bits in two operations, a truthful checker can keep linear relaxation running for ever |
| Termination.DdminEndless | optimizer/driver.go:138-173 | the same for delta debugging from three 1-bits, by timing out below a valid half |
| Termination.StoreEndless | optimizer/driver.go:138-173 | the same for the one input without such a half, a store and one more bit, with a checker that does not always time out on the same assignments |
| Powerset.FamilySize | optimizer/filter.go:25-29 | a filter of subsets of an assignment holds at most 2^Ones of them |
| Driver.Driver.constructor | optimizer/driver.go:48-57 | a new driver starts with an empty filter and no checks |
| Driver.Driver.Check | optimizer/driver.go:243-289 | the check closure answers and updates the filter as the search functions describe, whatever earlier checks did to the module: Invalid when the module cannot take the assignment, and otherwise what the tool says to the mutated text under the deadline |
| Driver.Driver.MutateTo | optimizer/driver.go:253-261 | mutating the module as it is succeeds exactly when the original could be mutated, with the same outcome |
| Driver.Driver.FilterUpdate | optimizer/driver.go:214-241 | the statuses NotSafe, NotLive and Invalid insert the assignment, and no others |
| Driver.Driver.TryCandidates | optimizer/driver_lr.go:31-43 | the inner loop refines the search function on one operation's candidates |
| Driver.Driver.WeakerSeqs | optimizer/driver_lr.go:19-30 | the candidates on packed bitsequences: without both bits, without the lower, without the upper one, or just without the one that is set |
| Driver.Driver.Lr | optimizer/driver_lr.go:16-47 | linear relaxation on packed bitsequences, string filter and mutable module has the solutions and state of the search function, and follows its preference for each operation |
| Driver.ReverseSolutions | optimizer/driver_lr.go:49-53 | swapping inward from both ends reverses the list |
| Driver.Driver.TryAll | optimizer/driver_ddmin.go:32-39 | the batch loop refines the search function and inserts every candidate that is not accepted |
| Driver.Driver.TryRound | optimizer/driver_ddmin.go:19-57 | one granularity on packed bitsequences refines the search function |
| Driver.Driver.Ddmin2 | optimizer/driver_ddmin.go:13-62 | delta debugging on packed bitsequences terminates and has the solutions and state of the search function |
| Driver.Driver.Recheck | optimizer/driver.go:78-126 | the recheck on the mutable module has the index, the state and the elapsed time of the model |
| Driver.FirstWith | optimizer/driver.go:201-210 | index of the first solution with a status, or -1 |
| Driver.Driver.RunPass | optimizer/driver.go:138-173 | one pass of the loop refines the model, and a pass that leads to another one sets the deadline by the time its recheck took |
| Driver.Driver.Run | optimizer/driver.go:128-174 | the run starts from the encoding of the module and, for any number of passes, has the result and state of the model; every pass starts from that same assignment; without a weight the deadline it goes on with is the configured one plus the time of all failed rechecks |
| Driver.Driver.RunToEnd | optimizer/driver.go:128-174 | with a filter the loop ends by itself, with the result and state that some number of passes of the model give |
| FilterSet.FilterSet.Set | optimizer/filter.go:27-29 | inserts exactly this assignment, for its own length only |
| FilterSet.FilterSet.Dup | optimizer/filter.go:31-33 | true exactly for an inserted assignment |
| FilterSet.FilterSet.Rlx | optimizer/filter.go:35-43 | true exactly when the assignment is below an inserted one of the same length |
| FilterSet.FilterSet.Contains | optimizer/filter.go:46-58 | nothing without a filter, exactly the inserted assignments with the duplicate one, everything below one of them with the relaxed one |
| FilterSet.FilterSet.KeyPerEntry | optimizer/filter.go:25-29 | there are as many keys as inserted assignments: distinct ones never share a key |
| Bitseqs.Canonical | core/bitseq.go:15-19 | two bitsequences of one length that stand for the same indices have the same words |
| Bitseqs.Bitseq.Equals | core/bitseq.go:202-216 | same length and same indices |
| Bitseqs.Bitseq.SubsetOf | core/bitseq.go:297-311 | strict inclusion of the indices, for the same length |
| Bitseqs.Bitseq.Intersect | core/bitseq.go:313-324 | a common index, for the same length |
| Bitseqs.Bitseq.Fit | core/bitseq.go:228-247 | growing keeps all indices; shrinking keeps those below n, except that a positive multiple of 64 loses the last word |
| Bitseqs.ShrinkInPlace | core/bitseq.go:234-238 | shrinking masks the word it shares: the shrunk bitsequence is as Fit says, and the original, still as long, loses exactly its indices from n on in that word, or the whole word when n is a multiple of 64 |
| Bitseqs.FitKeeps | core/bitseq.go:234-238 | shrinking keeps exactly the indices below n if and only if it does not meet indices in a wiped last word |
| Bitseqs.Bitseq.Clone | core/bitseq.go:274-279 | an equal bitsequence |
| Bitseqs.Bitseq.Set | core/bitseq.go:249-263 | adds exactly the given indices and grows the length just enough to hold them |
| Bitseqs.Bitseq.Unset | core/bitseq.go:281-295 | removes exactly the given indices, growing the length likewise |
| Bitseqs.Bitseq.SetRange | core/bitseq.go:265-272 | adds exactly the indices of the range |
| Bitseqs.Bitseq.And | core/bitseq.go:365-379 | intersection, for all lengths; the result is well-formed if and only if the second operand has enough words |
| Bitseqs.Bitseq.Or | core/bitseq.go:397-411 | union, as far as the length of the first and the words of the second reach; for equal lengths the union |
| Bitseqs.Bitseq.Xor | core/bitseq.go:381-395 | symmetric difference, as far as the length of the first and the words of the second reach; for equal lengths the symmetric difference |
| Bitseqs.Bitseq.Ones | core/bitseq.go:326-338 | the number of indices |
| Bitseqs.Bitseq.Indices | core/bitseq.go:340-352 | the indices in strictly increasing order |
| Delta.AscendingLists | core/bitseq.go:340-352 | the list Indices returns is strictly increasing and holds exactly the indices |
| Bitseqs.Bitseq.Translate | core/bitseq.go:458-496 | the values of consecutive groups of one or two bits across word boundaries, or an error exactly for other granularities and lengths that do not divide |
| Words.BitwiseBit | core/bitseq.go:365-411 | the word operators act on each bit alone |
| Text.ToBinString | core/bitseq.go:163-177 | one binary digit for each bit of the length, across word boundaries |
| Text.ToHexString | core/bitseq.go:179-193 | as many lower-case hexadecimal digits as the length needs, with the bits of the bitsequence |
| Text.FromBinString | core/bitseq.go:90-112 | a valid bitsequence with the indices of the '1' characters, or an error exactly for the empty string |
| Text.MustFromBinString | core/bitseq.go:76-83 | the same for every string, the empty one giving the empty bitsequence |
| Text.FromHexString | core/bitseq.go:114-142 | a valid bitsequence of four bits a digit, or an error exactly for the empty string or a character that is no digit |
| Text.DigitValues | core/bitseq.go:21-24 | the digits and the letters a to f of either case stand for their values, and nothing else is a digit |
| Text.FromString | core/bitseq.go:52-65 | accepts exactly 0x followed by hexadecimal digits and 0b followed by binary digits, and reads them as such |
| Text.ParseBitseq | core/bitseq.go:36-50 | the wanted length, with all, none or the fitted indices of the literal |
| Text.BinRoundTrip | core/bitseq.go:76-83 | printing in binary and parsing gives the bitsequence back, for every length |
| Text.HexRoundTrip | core/bitseq.go:36-50 | printing in hexadecimal and parsing with the same length gives the bitsequence back, for every length above 0 |
| Text.BinTextInjective | optimizer/filter.go:27-33 | bitsequences that print the same are equal |
| Text.BinTextOfIx | core/bitseq.go:90-112 | a string is what printing gives back for what it parses to if and only if it is binary |
| Text.ParseWipesWord | core/bitseq.go:234-238 | a literal of seventeen ones digits parsed at length 64 gives no bits at all, and at length 63 some |
| Encoding.MatchesByKind | core/selection.go:37-52 | what each selection selects, by kind and atomicity: the atomic one fences, read-modify-writes, compare-exchanges and atomic accesses, and so on |
| Encoding.PositionsList | module/wrap_module.go:55-63 | a selection consists of exactly the matching operations, in order |
| Encoding.MutateAssigns | module/mutator.go:32-43 | a mutation assigns the items before the first one its operation cannot take, changes nothing else, and succeeds iff there is none |
| Encoding.MutateOk | module/mutator.go:21-64 | for a bitsequence of matching length it succeeds exactly when every pair is valid for the kind of its operation |
| Encoding.MutateKeepsFrame | module/mutator.go:21-64 | however far a mutation gets, the selected operations, kinds, original values and unselected operations stay |
| Encoding.MutateFaithful | module/mutator.go:21-64 | after a successful mutation the selection's bitsequence is the one mutated to, for orderings and for loads and stores |
| Encoding.MutateForgets | module/mutator.go:21-64 | earlier mutations, even one that stopped half-way, make no difference to a successful one |
| Encoding.EncodeMutate | module/selection.go:28-50 | mutating a module to its own bitsequence changes nothing |
| Encoding.InclusionIsStrength | module/selection.go:28-50 | one encoding includes another iff the orderings are, operation by operation, at least as strong |
| Encoding.DecodeIsMonotone | core/ordering.go:24-47 | the same through decoding, for valid assignments |
| Encoding.EncodeStrengths | module/selection.go:28-61 | what the bits of an encoding say: release strength in the lower bit of a pair, acquire strength in the upper one, or atomicity in one bit |
| Ordering.PairMeans | core/ordering.go:24-47 | what the two bits say when they are decoded, and which pair a load and a store cannot take |
| WrapModule.WrapModule.Get | module/wrap_module.go:55-63 | exactly the operations of the selection, by id: those of the kinds and with the atomicity the selection stands for |
| WrapModule.WrapModule.SelectedKeys | module/selection.go:19-26 | the ids of the selection in ascending order are the positions of its operations |
| WrapModule.WrapModule.Bitseq | module/analyzer.go:183-189 | the bitsequence of a selection encodes its orderings or its atomicity |
| WrapModule.WrapModule.BitseqModes | module/selection.go:28-50 | two bits an operation, by ordering |
| WrapModule.WrapModule.BitseqBinary | module/selection.go:52-61 | one bit an operation, by atomicity |
| WrapModule.WrapModule.Mutate | module/mutator.go:21-64 | the module in place ends in the state, and with the success, that the mutation of its operation list has |
| WrapModule.WrapModule.AssignItem | module/mutator.go:32-57 | one value: refused and nothing changed, or exactly this operation changed, to the decoded ordering, or to a sequentially consistent or a plain access |
| WrapModule.WrapModule.AddInst | module/wrap_module.go:47-53 | the next id gets the operation and all others keep theirs |
| WrapModule.WrapModule.Load | module/wrap_module.go:22-36 | loading a printed module gives its operations with dense ids, original and current values being those printed |
| WrapModule.WrapModule.Print | module/wrap_inst.go:91-170 | one line for each operation that is not a relaxed fence, in order, with its kind and values; an access made atomic without an ordering is printed sequentially consistent, one made plain without an ordering |
| Printing.PrintedShows | module/wrap_inst.go:73-102 | the text of a module has just these lines |
| CompareExchange.WrapInstCmpXchg.LLString | module/wrap_inst.go:154-170 | prints success and failure ordering of the assignment, monotonic failure for release, and rewrites both in the instruction afterwards to those of the original ordering; an unchanged one is printed as it was parsed |
| CompareExchange.ShownPair | module/ordering.go:12-40 | an ordering is printed as the one it is parsed from, and exactly none, unordered and acquire-release cannot be expressed |
| CompareExchange.AfterKeeps | module/wrap_inst.go:154-170 | over every run of assignments and prints the success ordering survives, and the failure ordering does until the first print of a mutated exchange |
| CompareExchange.PrintsForget | module/wrap_inst.go:154-170 | what a compare-exchange prints is independent of earlier prints if and only if its parsed failure ordering is the one its success ordering would be rewritten with, or its success ordering is not expressible in assignments |
| WrapModule.SortedKeys | module/selection.go:19-26 | the keys in strictly increasing order |
| History.History.Mutate | module/history.go:125-127 | the assignment is logged and the module mutated, even half-way; nothing else changes |
| History.History.Record | module/history.go:74-89 | the module is printed, goes on as read back from that, and current mutations become recorded |
| History.History.Forget | module/history.go:92-102 | back to the last print, and current mutations are dropped; recorded ones and prints stay |
| History.History.ReplayOriginal | module/report.go:76-94 | the replay computes what applying all assignments to the original gives; without a lost fence it succeeds and shows the current module |
| Replay.ReplayAgrees | module/report.go:76-94 | over every run of successful mutations, records and forgets, the replay gives the current module if and only if no record lost a relaxed fence |
| Replay.StepConsistent | module/history.go:74-127 | each step keeps the invariant behind that, and a lost fence is never made up for |
| Replay.RecordDeletesPairs | module/wrap_inst.go:91-102 | recording deletes exactly the pairs of the relaxed fences from the bitsequence of all atomic operations: each pair afterwards is that of the next atomic operation that is no relaxed fence |
| Replay.SurvivorsList | module/wrap_inst.go:91-102 | the survivors are the atomic operations that are not relaxed fences, in order |
| Replay.PrintedKeeps | module/wrap_inst.go:73-102 | printing and loading keeps kinds and current values unless a relaxed fence is lost, and then the module is shorter |
| Visitor.Analyzer.Callback | module/analyzer.go:152-181 | a wrapper with the next id exactly for fences, read-modify-writes and compare-exchanges, and for accesses with debug information whose address is no spilled parameter and is declared or no stack slot; and what it learns from the instruction |
| Visitor.Analyzer.AddInst | module/wrap_module.go:47-53 | the next id is always free and ids stay dense |
| Visitor.WrapOne | module/visitor.go:182-195 | replacing an entry by its wrapper keeps entries and ids in one-to-one correspondence |
| Visitor.GoesOnTrans | module/visitor.go:182-195 | visits compose: what they wrap stays, and calls followed stay followed |
| Visitor.MeetOne | module/analyzer.go:62-181 | handing one more instruction to the analysis keeps the invariant: what was met is replaced if and only if it was to be tracked by what had been met before it, and ids follow the order of meeting |
| Visitor.LocalAccess | module/analyzer.go:62-76 | accesses to a variable declared before them in their function are wrapped unless it is a spilled parameter, and accesses to a stack slot that is never declared are not |
| Visitor.ResolveCases | module/visitor.go:93-143 | which function a call is followed into, also through a bit cast, and which calls fail |
| Visitor.Visitor.VisitInst | module/visitor.go:145-180 | an entry is skipped, or replaced by the one wrapper made for it; calls are followed completely |
| Visitor.Visitor.VisitCallee | module/visitor.go:93-143 | a call is followed into its function, or ignored and nothing changes, or fails |
| Visitor.Visitor.Visit | module/visitor.go:182-195 | a visit terminates on recursive call graphs and has then seen the whole function and all functions its new calls lead to |
| Visitor.VisitComplete | module/visitor.go:35-49 | a visit that succeeds has seen everything reachable, and no reachable call fails |
| Visitor.Visitor.VisitFrom | module/visitor.go:35-49 | the visit of one entry function succeeds iff no reachable call fails; it replaces only reachable instructions, and each reachable one if and only if it is to be tracked by what the instructions met before it teach |
| Visitor.Visitor.VisitModule | module/visitor.go:35-49 | the same for all entry functions together: operations tracked by one visit are skipped by the others, so each is wrapped once; what comes earlier in a function is met earlier, and ids follow the order of meeting |

## Left out

- Driver.Driver.Run: makes at most a given number of passes, because without a filter the source's loop need not end (`Termination.AlwaysEndsIff`); with one, `Driver.Driver.RunToEnd` is the whole loop.
- Speculation.RunMinimal: is about runs that end with their first solution. The only other one a run can end with is the second (`Speculation.FallbackIsSecond`), and `Fallback.ReliableIff` says for which inputs and deadlines that cannot cost minimality.
- Optimality.RunOptimalDdmin: asks for a sheltered input under the relaxed filter; without that the promise fails for the input or a weaker one (`Shelter.ShelterIff`).
- Optimality.Optimize: starts from the module as recorded. That the source reloads this module before it mutates it to the solution makes no difference (`History.History.Forget`, `Encoding.MutateForgets`). The printed summary is left out.
- WrapModule.WrapModule.Print: shows one ordering for each operation. The failure ordering of a compare-exchange is not part of that text, so what is said of texts is about modules whose prints do not depend on earlier ones (`CompareExchange.PrintsForget`).
- Speculation.DeadlineIsMean: is about weights between 0 and 1 and takes alpha as a real number and durations as unbounded integers, so floating-point rounding and overflow of nanoseconds are not modelled.
- LinearRelaxation.RelaxCertified: assumes the five statuses a checker gives; Undefined and Rejected are not inserted into the filter, and the option that treats internal checker errors as invalid is not modelled.
- Driver.Driver.Check: is for selections of atomic operations, the only ones that are optimized, and for checks without an internal error; on such an error the source inserts the assignment whatever the status.
- WrapModule.WrapModule.Mutate: does not cover more values than selected operations, where the source indexes out of range.
- Encoding.MutateFaithful: does not cover the selection of plain operations, which changes while they become atomic, so that its bitsequence afterwards is not the one mutated to.
- History.History.Record: writing and parsing files always succeeds; a printed module is the list of its operations, and that the analysis of a printed module finds the same operations in the same order is not derived from the visitor.
- Bitseqs.Bitseq.Fit: returns a value; what shrinking does to the words of the original is stated by `Bitseqs.ShrinkInPlace`. Only parsing shrinks, and it drops the original.
- Visitor.Visitor.VisitModule: says in which order the instructions of one function are met, not those of different functions.
- Acquire-release orderings, which the source maps to Invalid and encodes like Relaxed: the theorems about strength require orderings the encoding can express.
- The model checkers themselves, their processes, options and output: they are the reply function.
- LLVM parsing and printing, debug metadata, source locations and the coloured diff.
- Expanding the call graph by cloning functions, and callbacks that replace calls.
- Statistics, means and wall-clock time; the elapsed time of a recheck is an arbitrary function.
- Repeat, Reverse, Trailing, Child, IsZero and FromUint of bitsequences, and random subsets: not on the path of the search.
- Command line, configuration, logging and Docker.
- The lock around a mutation: the model is sequential.
