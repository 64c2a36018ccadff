# Verified models of the BTCR DID tools and the algorithms they carry

This project models the parts of the repository whose correctness is not obvious from reading them: the money
arithmetic, the tip following and the option reading of its own programs, and the graph, generator and parsing
algorithms of the libraries kept with it. Every statement of the table below is proved for all inputs, all runs or all
reachable states. `dafny verify dfyconfig.toml` checks everything.

## What is modelled

* **Unordered matching** (`BipartiteGraphs`, `GraphEnumeration`, `Matching`, `UnorderedElements`). Depth-first
  augmentation over two arrays, the bit matrix with its enumeration of all graphs, and the verdict on whole
  containers. The argument that one visit to each left node is enough is carried by a ghost set of dead right nodes:
  all matched, with every neighbour of their partners dead too. The set only grows, no augmentation enters it, and
  at the end it bounds every matching.
* **Mock expectations** (`PrerequisiteGraphs`, `Expectations`, `MockRuns`, `MockRegistry`). The three work-list
  searches on objects, each proved against the transitive prerequisites. The one without visited marks ends because
  each expectation on its list carries a budget that pays for everything below it. `MockRuns` is the state machine of
  declaring, ordering and calling, with its invariant and the exact orders of calls it accepts;
  `MockRegistry` carries its steps out on the objects.
* **Random numbers** (`Powers`, `Threefish`, `RandomGenerator`, `KnownAnswer`). The unrolled cipher against the
  72-round loop of Threefish-256 (section 3.3 of "The Skein Hash Function Family", version 1.3), its inverse, and the
  streams of split generators. `KnownAnswer` computes one block in literals.
* **Money** (`Binary64`, `Satoshis`). Doubles are the reals that binary64 represents; every operation is the exact
  one followed by rounding to nearest, ties to even. Conversion, printing, reading back, and the change of a
  transaction.
* **Tip following** (`TipFollowing`). The mutual recursion over an append-only ledger in which transactions spend
  only earlier outputs. `Valid` states what a block chain guarantees: ids are unique, spent outputs exist before, and
  none is spent twice.
* **Options** (`OptionSpecs`, `AnyOption`, `OptionRoundTrips`, `BtcrArguments`). Reading a command line or a file is a
  sequence of writes to slots that depends only on declarations and text. The class with its growing tables and its
  loops is proved against these writes, and the reading order of createBtcrDid follows.
* **Flags and words** (`GoogleMockFlags`, `IdentifierWords`). Flags removed from the argument array in place, and
  identifiers split into words.

`Options` and `Text` hold what several of these share.

## Where the code does not do what one would expect

* `chomp` is there to trim names and values, and the header of anyoption.cpp shows the lines of an option file behind
  varying blanks, though inside a comment. It cuts blanks off the end in place but only returns the position after
  those at the start, and `valuePairs` and `justValue` go on with the uncut name. Indented names are therefore never
  recognised, unless an option is declared under a name that starts with a blank (`FileReadsBack`,
  `IndentedNamesAreIgnored`).
* A pair whose value ends its line in the delimiter, such as a password ending in an equal sign, is taken for a flag
  with the whole line as its name, and so lost (`PairReads`).
* Leading equal signs and blanks of a value attached to an option character are dropped (`ClusterReads`).
* A last line without a newline is ignored by `consumeFile` (`UnterminatedLineIsIgnored`).
* `parsePOSIX` signals "no option" with the character `0`, so an option of that name never waits for the next argument
  (the last clause of `AnyOption.ParsePOSIX`).
* A flag for the default mock behaviour without a value sets it to zero, since the empty text is read as zero
  (`BareBehaviorIsZero`).
* `Sequence::AddExpectation` refuses only the expectation that is last already. Adding an expectation that an earlier
  one requires makes the graph cyclic: `ReturningClosesACircle` is the shortest case, and `NewEdgeKeepsAcyclicIff` gives
  the exact condition.
* createBtcrDid does not reject a fee above the input amount; the printed change is then negative
  (`ChangeIsConserved`).
* A split does not separate the generator that stays from its own past: paths that differ only by staying splits at the
  end produce the same numbers, and under one key no others do (`LongPathsAgreeExactlyWhen`).

## Model

| member | source | states |
|---|---|---|
| Matching.MaxBipartiteMatchState.Compute | test/googletest/googlemock/src/gmock-matchers.cc:130-161 | the listed pairs are edges of the graph that share no end, without repetition, and no matching of the graph is larger, although every left node is tried once |
| Matching.MaxBipartiteMatchState.TryAugment | test/googletest/googlemock/src/gmock-matchers.cc:182-206 | terminates; success matches the left node and exactly one new right node, restores mutual reference and unmatches nothing; failure changes neither vector and leaves every newly seen right node matched to a left node all of whose neighbours have been seen |
| Matching.AugmentAtSink | test/googletest/googlemock/src/gmock-matchers.cc:198-203 | a path may end at a right node that is free |
| Matching.AugmentThroughPartner | test/googletest/googlemock/src/gmock-matchers.cc:198-203 | when the search succeeds beyond the partner of a right node, re-pointing that node moves the one broken reference to the previous partner of the left node |
| Matching.ExhaustedThroughPartner | test/googletest/googlemock/src/gmock-matchers.cc:183-204 | a failed search beyond a right node leaves that node exhausted as well |
| Matching.SettledAfterAugmenting | test/googletest/googlemock/src/gmock-matchers.cc:134-144 | an augmentation neither enters the dead set nor unsettles a left node already visited |
| Matching.SettledAfterFailure | test/googletest/googlemock/src/gmock-matchers.cc:134-144 | after a failed search the dead set may grow by everything seen, and the failed left node never needs another visit |
| Matching.DeadSetBoundsEveryMatching | test/googletest/googlemock/src/gmock-matchers.cc:134-144 | once every left node is settled, each edge of any matching can be charged to a matched left node of its own, so no matching is larger than the pairs found |
| Matching.PairsAreMaximum | test/googletest/googlemock/src/gmock-matchers.cc:154-160 | the pairs read off the left vector are a maximum matching |
| Matching.MatchMatrix.NextGraph | test/googletest/googlemock/src/gmock-matchers.cc:247-259 | adds one to the matrix read as a binary number, and returns false exactly when that wraps around to the empty graph |
| Matching.MatchMatrix.SetEdge | test/googletest/googlemock/include/gmock/gmock-matchers.h:2856-2858 | adds or removes exactly the one edge named |
| Matching.MatchMatrix.HasEdge | test/googletest/googlemock/include/gmock/gmock-matchers.h:2853-2855 | reads exactly the edges of the graph |
| Matching.MatchMatrix.constructor | test/googletest/googlemock/include/gmock/gmock-matchers.h:2845-2849 | a new matrix is the empty graph |
| GraphEnumeration.IncrementAddsOne | test/googletest/googlemock/include/gmock/gmock-matchers.h:2860-2863 | flipping cells up to the first clear one is addition of one modulo two to the number of cells |
| GraphEnumeration.IncrementAt | test/googletest/googlemock/src/gmock-matchers.cc:250-255 | clearing a run of set cells and setting the next one is that increment |
| GraphEnumeration.BitsOfRoundTrip | test/googletest/googlemock/include/gmock/gmock-matchers.h:2869-2880 | every graph is the graph of some cells |
| GraphEnumeration.DistinctBitsDistinctGraphs | test/googletest/googlemock/include/gmock/gmock-matchers.h:2869-2880 | different cells are different graphs |
| GraphEnumeration.VisitedNumber | test/googletest/googlemock/src/gmock-matchers.cc:247-259 | after k increments from the empty matrix the cells read as k |
| GraphEnumeration.EveryGraphVisitedExactlyOnce | test/googletest/googlemock/include/gmock/gmock-matchers.h:2839-2842 | iterating from the empty graph until the wrap meets every bipartite graph at exactly one position |
| UnorderedElements.FindMaxBipartiteMatching | test/googletest/googlemock/src/gmock-matchers.cc:228-230 | returns a maximum matching for any matrix |
| UnorderedElements.FindPairing | test/googletest/googlemock/src/gmock-matchers.cc:420-459 | true exactly when some matching covers all matchers (superset), all elements (subset), or both (exact match) |
| UnorderedElements.VerifyMatchMatrix | test/googletest/googlemock/src/gmock-matchers.cc:365-418 | true exactly when no node that has to be covered is isolated |
| UnorderedElements.QuickFilterIsSound | test/googletest/googlemock/src/gmock-matchers.cc:365-369 | the filter never rejects a graph that has the required matching |
| UnorderedElements.PairingIsAssignment | test/googletest/googlemock/src/gmock-matchers.cc:283-305 | a covering matching exists exactly when every matcher, every element or both can be given a partner of their own |
| UnorderedElements.AnalyzeElements | test/googletest/googlemock/include/gmock/gmock-matchers.h:3007-3031 | the matrix has an edge exactly where an element satisfies a matcher |
| UnorderedElements.MatchAndExplain | test/googletest/googlemock/include/gmock/gmock-matchers.h:2977-3004 | the verdict on a container is exactly the existence of the injection or permutation that the description promises, whatever the early exits do |
| UnorderedElements.AnswerAt | test/googletest/googlemock/include/gmock/gmock-matchers.h:3018-3028 | the flat list of answers is read back at row times width plus column |
| Expectations.Expectation.RetireAllPreRequisites | test/googletest/googlemock/src/gmock-spec-builders.cc:103-127 | if retired expectations have only retired prerequisites, exactly the transitive prerequisites of this one become retired, the same holds again, and stopping at retired ones misses nothing |
| Expectations.Expectation.AllPrerequisitesAreSatisfied | test/googletest/googlemock/src/gmock-spec-builders.cc:129-148 | on an acyclic graph terminates without remembering what it has visited, and is true exactly when the number of calls of every transitive prerequisite lies between its lowest and its highest one |
| Expectations.Expectation.FindUnsatisfiedPrerequisites | test/googletest/googlemock/src/gmock-spec-builders.cc:150-178 | adds exactly the unsatisfied prerequisites that are reached through satisfied ones never called |
| Expectations.FirstUnsatisfiedIsComplete | test/googletest/googlemock/src/gmock-spec-builders.cc:164-175 | provided that called, satisfied prerequisites have satisfied prerequisites, the report holds only unsatisfied transitive prerequisites and is empty exactly when all are satisfied |
| Expectations.AllWithinSatisfied | test/googletest/googlemock/src/gmock-spec-builders.cc:164-169 | not entering a called prerequisite hides nothing that is unsatisfied |
| Expectations.Expectation.ShouldHandleArguments | test/googletest/googlemock/include/gmock/gmock-spec-builders.h:1101-1111 | an expectation whose matchers accept takes the call exactly when it is active and every transitive prerequisite has been called as often as it asks for |
| Expectations.Expectation.GetActionForArguments | test/googletest/googlemock/include/gmock/gmock-spec-builders.h:1197-1223 | the call is counted in any case; a call within the limit retires all transitive prerequisites, and the expectation itself when it asks for that and is used up; an excessive call retires nothing |
| Expectations.Sequence.AddExpectation | test/googletest/googlemock/src/gmock-spec-builders.cc:852-861 | the previous last expectation, if it is another one, becomes a prerequisite of the added one, which becomes last |
| PrerequisiteGraphs.ClosureIsClosed | test/googletest/googlemock/src/gmock-spec-builders.cc:112-126 | collecting prerequisites of prerequisites ends with a set that requires nothing outside itself |
| PrerequisiteGraphs.ClosureIsLeast | test/googletest/googlemock/src/gmock-spec-builders.cc:112-126 | and that set lies in every closed set holding the starting ones |
| PrerequisiteGraphs.PathLeadsToPrerequisite | test/googletest/googlemock/src/gmock-spec-builders.cc:129-131 | everything at the end of a path of immediate prerequisites is a transitive prerequisite |
| PrerequisiteGraphs.PrerequisiteHasPath | test/googletest/googlemock/src/gmock-spec-builders.cc:129-131 | every transitive prerequisite is at the end of such a path |
| PrerequisiteGraphs.WalkCollects | test/googletest/googlemock/src/gmock-spec-builders.cc:117-125 | taking one prerequisite off an expectation being expanded keeps what is visited, stacked and still owed accounted for |
| PrerequisiteGraphs.WalkEnds | test/googletest/googlemock/src/gmock-spec-builders.cc:113-126 | a work list that has run empty has visited exactly the transitive prerequisites |
| PrerequisiteGraphs.PushWithinBudget | test/googletest/googlemock/src/gmock-spec-builders.cc:135-146 | pushing a prerequisite on the list costs less than what its parent had set aside for it, so repeated visits still end |
| PrerequisiteGraphs.PopWithinBudget | test/googletest/googlemock/src/gmock-spec-builders.cc:135-146 | popping an expectation frees enough for all its immediate prerequisites |
| MockRuns.StepKeepsInv | test/googletest/googlemock/src/gmock-spec-builders.cc:103-127 | every enabled step keeps: the graph has no circle, the retired set is closed, later members of a sequence require earlier ones, and whatever was called within its limit has only retired and satisfied prerequisites |
| MockRuns.TheNewestMayBeOrdered | test/googletest/googlemock/src/gmock-spec-builders.cc:853-861 | where everything required is older than what requires it, ordering the newest expectation closes no circle, so such a step is possible before its first use, and everything required stays older |
| MockRuns.InTurnStepIsEnabled | test/googletest/googlemock/src/gmock-spec-builders.cc:853-861 | a step that orders nothing but the newest expectation is never refused, and neither it nor a declaration or a call makes anything require a younger one |
| MockRuns.NewcomerIsInTurn | test/googletest/googlemock/include/gmock/gmock-spec-builders.h:1625-1645 | whatever has just been declared may be ordered after any others, and in any sequence |
| MockRuns.DisciplinedRuns | test/googletest/googlemock/src/gmock-spec-builders.cc:853-861 | over any run in which each expectation is ordered only while it is the newest, from nothing on, no step is refused, everything required is older, the graph has no circle and later members of a sequence require all earlier ones; no check for circles is needed |
| MockRuns.InSequenceKeepsOrder | test/googletest/googlemock/src/gmock-spec-builders.cc:853-861 | adding the newest expectation to a sequence makes it require all earlier members, not only the last |
| MockRuns.HandleKeepsRetiredClosed | test/googletest/googlemock/src/gmock-spec-builders.cc:105-110 | the shortcut at retired expectations is justified: none is retired before its prerequisites |
| MockRuns.HandleKeepsCalledInOrder | test/googletest/googlemock/include/gmock/gmock-spec-builders.h:1203-1218 | handling a call keeps earlier calls in order |
| MockRuns.RetiredForever | test/googletest/googlemock/include/gmock/gmock-spec-builders.h:1101-1111 | in any run a retired expectation stays retired, takes no call and keeps its call count |
| MockRuns.CountGrowsExactlyWhenHandled | test/googletest/googlemock/include/gmock/gmock-spec-builders.h:1197-1203 | over any run the call count of an expectation grows exactly when a call of the run is handled by it, and never falls |
| MockRuns.OrderIsEnforced | test/googletest/googlemock/include/gmock/gmock-spec-builders.h:973-985 | once an expectation has been called within its limit, the call counts of its transitive prerequisites lie within their limits, and none of them takes a call for the rest of any run |
| MockRuns.SequenceIsEnforced | test/googletest/googlemock/include/gmock/gmock-spec-builders.h:945-955 | the same for any two members of one sequence |
| MockRuns.AcceptsExactlyWhen | test/googletest/googlemock/include/gmock/gmock-spec-builders.h:1101-1111 | a call that matches one expectation alone is taken within its limit exactly when the expectation is active, has calls left, and every transitive prerequisite has been called as often as it asks for |
| MockRuns.AcceptedExactlyInTime | test/googletest/googlemock/include/gmock/gmock-spec-builders.h:1203-1218 | from any state of a run, whatever the limits, a list of calls goes through without an excessive one exactly when each call comes while its expectation has calls left, before every call that requires it to be over, and after enough calls of all its transitive prerequisites |
| MockRuns.LegalOrdersAreAccepted | test/googletest/googlemock/include/gmock/gmock-spec-builders.h:973-985 | from the start, a list of calls goes through exactly when no call comes before a call of one of its transitive prerequisites, no expectation is called too often, and whatever a called one requires is called often enough |
| MockRuns.ReportIsComplete | test/googletest/googlemock/src/gmock-spec-builders.cc:150-178 | in every state of every run the report of unsatisfied prerequisites is empty exactly when every transitive prerequisite has been called as often as it asks for |
| MockRuns.ReportedHasPath | test/googletest/googlemock/src/gmock-spec-builders.cc:157-177 | whatever is reported has a wrong number of calls and stands at the end of a path of prerequisites through expectations that were not called and need not be |
| MockRuns.PathsEndIsReported | test/googletest/googlemock/src/gmock-spec-builders.cc:157-177 | and everything of that kind is reported |
| PrerequisiteGraphs.NewEdgesKeepAcyclicIff | test/googletest/googlemock/include/gmock/gmock-spec-builders.h:973-985 | new prerequisites keep the graph acyclic exactly when the expectation is neither one of them nor required by one; this is the condition under which the state machine orders expectations |
| MockRuns.NewEdgeKeepsAcyclicIff | test/googletest/googlemock/src/gmock-spec-builders.cc:853-861 | for a sequence: exactly when the added expectation is neither the last one nor required by it; the code checks only the first half |
| MockRuns.ReturningClosesACircle | test/googletest/googlemock/src/gmock-spec-builders.cc:853-861 | adding an expectation, another one and the first again to one sequence makes both require themselves |
| MockRegistry.Registry.Declare | test/googletest/googlemock/include/gmock/gmock-spec-builders.h:1625-1637 | a new expectation enters last, requiring nothing and uncalled, and nothing else changes |
| MockRegistry.Registry.AddNewExpectation | test/googletest/googlemock/include/gmock/gmock-spec-builders.h:1625-1645 | constructs a new expectation, which enters last and, when an implicit sequence is alive, becomes the last one there; the invariant survives without any condition |
| MockRegistry.Registry.InSequence | test/googletest/googlemock/include/gmock/gmock-spec-builders.h:945-955 | carries out the sequence step on objects, for one of several sequences and any declared expectation, also a called one and also when it closes a circle; where the step is enabled the invariant survives |
| MockRegistry.Registry.After | test/googletest/googlemock/include/gmock/gmock-spec-builders.h:973-985 | the same for the ordering step with any set of declared expectations |
| MockRuns.PickIsYoungest | test/googletest/googlemock/include/gmock/gmock-spec-builders.h:1738-1747 | with the matching expectations in the order of their declaration, the one found is the youngest that should handle the call |
| MockRegistry.Registry.FindMatchingExpectation | test/googletest/googlemock/include/gmock/gmock-spec-builders.h:1730-1748 | the last candidate that should handle the call, or none |
| MockRegistry.Registry.Invoke | test/googletest/googlemock/include/gmock/gmock-spec-builders.h:1700-1720 | carries out a whole call: who takes it, who is counted and who retires |
| Threefish.FourRounds | test/rapidcheck/src/Random.cpp:87-104 | one subkey addition and four unrolled mixings are four rounds of the loop, for every even and odd group |
| Threefish.RotlIsRotation | test/rapidcheck/src/Random.cpp:89-89 | the two shifts and the or that the source writes are a rotation of the 64-bit word, for all fifteen distances |
| Threefish.RotrOfRotation | test/rapidcheck/src/Random.cpp:89-89 | and each is undone by the rotation the other way |
| Threefish.UnroundsInvert | test/rapidcheck/src/Random.cpp:87-418 | undoing the rounds in reverse order gives back the input of any number of rounds |
| Threefish.DecryptInverts | test/rapidcheck/src/Random.cpp:70-425 | there is an inverse: decrypting a block with its key gives back bits and counter |
| Threefish.EncryptIsInjective | test/rapidcheck/src/Random.cpp:70-425 | for one key, different inputs give different blocks |
| RandomGenerator.FirstQuad | test/rapidcheck/src/Random.cpp:87-104 | the text of a first group of four rounds equals subkey addition and four mixings |
| RandomGenerator.SecondQuad | test/rapidcheck/src/Random.cpp:105-122 | the text of a second group does as well, with the other distances |
| RandomGenerator.LastAddition | test/rapidcheck/src/Random.cpp:420-424 | the output lines are the nineteenth subkey addition |
| RandomGenerator.Random.Mash | test/rapidcheck/src/Random.cpp:70-425 | the output is the 72-round cipher of bits and counter under the key, also when the output is the key itself, and nothing else changes |
| RandomGenerator.Random.Append | test/rapidcheck/src/Random.cpp:57-68 | one more step of the path is recorded, re-keying first when 64 are full |
| RandomGenerator.Random.Next | test/rapidcheck/src/Random.cpp:41-55 | the number and the whole new state, including the wrap of the counter |
| RandomGenerator.Random.Split | test/rapidcheck/src/Random.cpp:33-39 | this generator takes the false branch and the returned one the true branch, sharing nothing |
| RandomGenerator.CountIsInjective | test/rapidcheck/src/Random.cpp:51-51 | the counter takes no value twice within 2^64 steps |
| RandomGenerator.CountReachesMax | test/rapidcheck/src/Random.cpp:47-47 | and reaches its maximum exactly at the last of them |
| RandomGenerator.StateAfterDraws | test/rapidcheck/src/Random.cpp:41-55 | the state after n draws, for every n below 2^64 |
| RandomGenerator.NthNumber | test/rapidcheck/src/Random.cpp:41-55 | the n-th number is word n mod 4 of the cipher of the counter n - n mod 4 |
| RandomGenerator.WrapAround | test/rapidcheck/src/Random.cpp:47-50 | after 2^64 draws the generator has moved down the true branch of its path and counts from zero |
| RandomGenerator.BlocksDoNotRepeat | test/rapidcheck/src/Random.cpp:42-45 | blocks drawn before the wrap are pairwise different |
| RandomGenerator.PathBits | test/rapidcheck/src/Random.cpp:57-68 | a generator reached by up to 64 splits holds exactly its path in its bits |
| RandomGenerator.BlocksAgreeExactlyWhen | test/rapidcheck/src/Random.cpp:33-39 | two generators reached by any two paths of at most 64 splits in all make the same block exactly when their counters are equal and their paths differ by staying splits at the end at most |
| RandomGenerator.SplitStreamsAreDisjoint | test/rapidcheck/src/Random.cpp:33-39 | so paths that differ at some step, also past the end of the shorter one, share no block, whatever the counters |
| RandomGenerator.SplittingKeepsClean | test/rapidcheck/src/Random.cpp:57-68 | no bit above the recorded path is ever set, also after a full path has been folded into the key |
| RandomGenerator.FullPathRekeys | test/rapidcheck/src/Random.cpp:58-67 | the step after a full path encrypts the path and the counter into a new key and is the only step recorded under it |
| RandomGenerator.ContinuesUnderNewKey | test/rapidcheck/src/Random.cpp:57-68 | all further steps go on from there as from a generator with that key and no path |
| RandomGenerator.PathOfAnyLength | test/rapidcheck/src/Random.cpp:57-68 | a path of any length leaves its last steps, at most 64, in the bits, and all the others are folded into the key, 64 at a time |
| RandomGenerator.LongPathsAgreeExactlyWhen | test/rapidcheck/src/Random.cpp:33-39 | two paths of any lengths whose earlier steps were folded into one key make the same block exactly when the counters are equal and the recorded steps differ by staying splits at the end at most |
| RandomGenerator.FoldedKeysDiffer | test/rapidcheck/src/Random.cpp:58-62 | different full paths are folded into different keys |
| KnownAnswer.RoundsTo72 | test/rapidcheck/src/Random.cpp:87-418 | for one key, path and counter, the state after all 72 rounds, as a literal that depends on every constant, distance and subkey of the cipher |
| KnownAnswer.FourNumbers | test/rapidcheck/src/Random.cpp:13-55 | for that generator and path, four of its numbers as literals |
| RandomGenerator.StayingSharesTheStream | test/rapidcheck/src/Random.cpp:57-68 | any number of staying splits changes neither key nor path bits |
| Binary64.RoundIsNearest | src/satoshis.h:15-21 | the rounding used for every operation is at least as near as any double, denormal or normal |
| Binary64.RoundIsDouble | src/satoshis.h:15-21 | and its result is a double |
| Binary64.RangeOfDoubles | src/satoshis.h:15-21 | the least positive double is 2^-1074 and the greatest one (2^53 - 1) * 2^971 |
| Binary64.TiesToEven | src/satoshis.h:15-21 | from 2^53 to 2^54, where every odd number is halfway between two doubles, the even significand is taken |
| Satoshis.QuotientNear | src/satoshis.h:19-21 | the divided amount is within three sixteenths of a satoshi of the exact one, up to 2^25 bitcoins either way |
| Satoshis.NearbyAmount | src/satoshis.h:15-17 | any double within a quarter of a satoshi of an amount converts to that amount |
| Satoshis.SatoshiRoundTrip | src/satoshis.h:13-21 | every amount up to 2^25 bitcoins either way, and so all the money there will ever be, survives the trip through a double |
| Satoshis.RoundTripRange | src/satoshis.h:13-21 | the range, exactly: all amounts up to m either way survive the trip if and only if m is at most 2^25 bitcoins and 18 satoshis |
| Satoshis.FailureAboveTheRange | src/satoshis.h:13-21 | at the next amount, either way, the trip is off by one satoshi, away from zero |
| Satoshis.ConversionError | src/satoshis.h:15-17 | for every double up to 21 million bitcoins either way the conversion is off by at most three quarters of a satoshi |
| Satoshis.PrintsExactly | src/satoshis.h:23-40 | an amount prints as sign, whole bitcoins, a point and eight places, to the last satoshi |
| Satoshis.PrintsInCharacters | src/satoshis.h:23-40 | the text character by character: a minus sign for negative amounts only, the decimal places of the whole bitcoins without leading zeros, a point, and the eight places of the rest |
| Satoshis.PrintedAmounts | src/satoshis.h:23-40 | three amounts with their texts as literals |
| Text.DigitsShowPlaces | src/satoshis.h:36-38 | a number is written with the ten digits for its decimal places, without leading zeros |
| Satoshis.ParseUnderstandsMoneyText | src/satoshis.h:23-40 | reading such a text gives back the amount |
| Satoshis.ChangeIsConserved | src/createBtcrDid.cpp:330-349 | the printed change plus the fee is the input amount, in satoshis; a minus sign appears exactly when the fee exceeds the input, which the code does not reject |
| Satoshis.ReadingIsConversion | src/createBtcrDid.cpp:330-335 | reading a decimal amount as the nearest double is the same as converting its satoshis |
| Satoshis.ChangeOfDecimalAmounts | src/createBtcrDid.cpp:330-349 | for decimal input and fee of at most eight places the printed change is the exact difference |
| Satoshis.LargeDoublesAreEven | src/satoshis.h:15-21 | from 2^53 on, either way, every double is an even integer |
| Satoshis.OddAmountsAreUnreachable | src/satoshis.h:15-17 | so beyond 2^53 satoshis, either way, no double that does not overflow converts to an odd amount |
| Satoshis.OddAmountsFail | src/satoshis.h:13-21 | and the trip fails for every odd 64-bit amount beyond 2^53, either way |
| TipFollowing.DetermineNextUtxoIndex | src/chainSoQuery.cpp:203-235 | the number of an output whose script does not have the word OP_RETURN anywhere, no other such output having a lower one; too few outputs exactly when every script has it |
| TipFollowing.ContainsExactlyWhen | src/chainSoQuery.cpp:221-222 | the search finds a part exactly when the text is that part with anything before and after it |
| TipFollowing.FollowedOutput | src/chainSoQuery.cpp:218-234 | the least candidate exists and is a candidate |
| TipFollowing.ListingOrderIsIrrelevant | src/chainSoQuery.cpp:216-234 | the order in which outputs are listed does not matter |
| TipFollowing.ValidExactlyWhen | src/chainSoQuery.cpp:245-271 | the ledgers considered are those that grow by transactions with new ids, spending outputs that exist and are not spent |
| TipFollowing.SpenderIsLater | src/chainSoQuery.cpp:260-269 | each step goes to a later transaction, which is why the mutual recursion ends |
| TipFollowing.WalkExists | src/chainSoQuery.cpp:184-193 | from every output there is a walk that cannot be continued |
| TipFollowing.WalkIsUnique | src/chainSoQuery.cpp:245-271 | and only one |
| TipFollowing.ChainResolvesAlike | src/chainSoQuery.cpp:255-271 | every transaction and followed output on the walk resolves alike |
| TipFollowing.ResolvesExactlyToTheTip | src/chainSoQuery.cpp:175-193 | the answer is a given transaction exactly when the walk leads to an unspent followed output of it |
| TipFollowing.NothingFoundExactlyWhenUnknown | src/chainSoQuery.cpp:249-253 | nothing is found exactly when the queried output itself is unknown; no later step fails that way |
| TipFollowing.AppendMovesTip | src/chainSoQuery.cpp:245-271 | one more transaction leaves an answer alone unless it spends the output the walk ends at, which makes it the tip or ends the walk for want of outputs, or is itself what was asked for |
| TipFollowing.TipOnlyMovesForward | src/chainSoQuery.cpp:175-193 | over any run of appended transactions the tip only moves to later ones, a walk resumed anywhere on its old course gives the new answer, and failure for want of outputs is final |
| AnyOptions.FirstEntryIsFirst | external/anyoption/anyoption.cpp:846-860 | a scan of a table finds the slot of the first declaration of the name with a kind that counts |
| AnyOptions.OptionTable.DoubleStorage | external/anyoption/anyoption.cpp:194-236 | twice the room and the same entries |
| AnyOptions.OptionTable.Add | external/anyoption/anyoption.cpp:521-558 | one more entry, whether or not the table was full |
| AnyOptions.OptionTable.Find | external/anyoption/anyoption.cpp:851-860 | the first entry that fits |
| AnyOptions.AnyOption.SetLong | external/anyoption/anyoption.cpp:499-504 | one declaration more under a long name, with the next slot |
| AnyOptions.AnyOption.SetChar | external/anyoption/anyoption.cpp:506-511 | one declaration more under a character, which counts only while characters are in use |
| AnyOptions.AnyOption.SetPair | external/anyoption/anyoption.cpp:513-519 | one declaration more under both names, with one slot |
| AnyOptions.AnyOption.SetValue | external/anyoption/anyoption.cpp:846-860 | writes the slot of the first declaration of the name |
| AnyOptions.AnyOption.SetCharValue | external/anyoption/anyoption.cpp:878-892 | the same by character |
| AnyOptions.AnyOption.MatchOpt | external/anyoption/anyoption.cpp:717-739 | finds an option that takes a value, or sets a flag |
| AnyOptions.AnyOption.MatchChar | external/anyoption/anyoption.cpp:740-761 | the same by character |
| AnyOptions.AnyOption.ParseGNU | external/anyoption/anyoption.cpp:682-714 | splits at the first equal sign that is not the first character, and otherwise tells which option waits for the next argument |
| AnyOptions.AnyOption.ParsePOSIX | external/anyoption/anyoption.cpp:655-680 | sets flags until an option takes the rest, or waits for the next argument; the answer '0' means neither |
| AnyOptions.AnyOption.ReadArg | external/anyoption/anyoption.cpp:622-650 | one argument with the value it takes along |
| AnyOptions.AnyOption.ProcessCommandArgs | external/anyoption/anyoption.cpp:610-653 | every slot gets exactly the writes of the arguments, in order; the positional arguments are the first legal ones of this call only |
| AnyOptions.AnyOption.ConsumeFile | external/anyoption/anyoption.cpp:976-1006 | exactly the lines that end in a newline, are not empty and do not start with the comment sign are passed on, in order |
| AnyOptions.AnyOption.ProcessLine | external/anyoption/anyoption.cpp:1028-1055 | a pair when a delimiter stands inside the line, and a flag otherwise, also when it starts or ends with one |
| AnyOptions.AnyOption.Chomp | external/anyoption/anyoption.cpp:1060-1070 | blanks go from the end in place, and from the start only in what is returned |
| AnyOptions.AnyOption.SetNamed | external/anyoption/anyoption.cpp:1072-1133 | character first, then long name, each only with a kind that files may set |
| AnyOptions.AnyOption.ProcessFile | external/anyoption/anyoption.cpp:936-941 | a missing file changes nothing; otherwise exactly the writes of the file |
| AnyOptions.AnyOption.GetValue | external/anyoption/anyoption.cpp:782-793 | the value in the slot of the first declaration of the name |
| AnyOptions.AnyOption.GetFlag | external/anyoption/anyoption.cpp:795-805 | on exactly when that slot holds the word true |
| AnyOptions.AnyOption.GetArgv | external/anyoption/anyoption.cpp:917-924 | the positional argument of that number, if there is one |
| OptionSpecs.ApplyAt | external/anyoption/anyoption.cpp:846-860 | after any writes a slot holds the last value written to it, or else what it held before |
| OptionSpecs.NamesShareASlot | external/anyoption/anyoption.cpp:513-558 | with distinct names, the long name and the character of one option always give the same value |
| OptionSpecs.FileWritesFileKinds | external/anyoption/anyoption.cpp:1072-1133 | with distinct names, a file writes only to options that files may set |
| OptionSpecs.ArgumentsOverrideFile | src/createBtcrDid.cpp:160-186 | after arguments, file and arguments again, every slot holds the last write of the command line, or else the last of the file |
| OptionSpecs.CommandOptionsIgnoreFile | src/createBtcrDid.cpp:157-172 | an option for the command line only is never changed by a file |
| BtcrArguments.ReadInputs | src/createBtcrDid.cpp:126-186 | the whole order of reading: the file is the one named by the first reading or the one in the home directory, the values are those of arguments, file and arguments again, and the positional arguments are those of the command line; with no arguments nothing more is read |
| BtcrArguments.ConfigFileIs | src/createBtcrDid.cpp:160-183 | for a command line in the documented forms, the file read is the one its last config item names, and the one in the home directory exactly when no item names one |
| BtcrArguments.InputsReadBack | src/createBtcrDid.cpp:157-186 | for a command line and a file in the documented forms, every option ends with what the command line says last, or else with what the file says last |
| BtcrArguments.UsageIsUnderstood | src/createBtcrDid.cpp:133-141 | the options of the usage text, each with its value, are understood as the options they are |
| OptionRoundTrips.UnknownReads | external/anyoption/anyoption.cpp:682-714 | an option that is not declared for the command line writes nothing and takes no argument along |
| OptionRoundTrips.ClusterReads | external/anyoption/anyoption.cpp:655-680 | a word of flag characters with an option at its end is read as exactly those flags and that option; blanks and equal signs before an attached value are no part of it |
| OptionRoundTrips.CommandLineReadsBack | external/anyoption/anyoption.cpp:610-653 | a command line written from items in the documented forms is read back as exactly what the items mean, and its plain items are the positional arguments |
| OptionRoundTrips.FileReadsBack | external/anyoption/anyoption.cpp:976-1133 | a file written from lines in the documented forms, padded with blanks, is read back as exactly what the lines mean, where a line with an indented name means nothing, and so does a pair that ends its line in the delimiter |
| OptionSpecs.UnterminatedLineIsIgnored | external/anyoption/anyoption.cpp:976-1006 | text after the last newline of a file writes nothing |
| OptionRoundTrips.FlagReads | external/anyoption/anyoption.cpp:1028-1055 | a flag line sets its flag exactly when its name is not indented |
| OptionRoundTrips.PairReads | external/anyoption/anyoption.cpp:1028-1055 | a pair line writes its value, without the blanks around it, exactly when its name is not indented and the line does not end in the delimiter |
| OptionRoundTrips.IndentedNamesAreIgnored | external/anyoption/anyoption.cpp:1060-1133 | a name with blanks before it matches nothing, because only what chomp returns has them removed |
| GoogleMockFlags.FlagValueForms | test/googletest/googlemock/src/gmock.cc:61-87 | an argument gives a flag a value exactly when it is the prefix, the flag, an equal sign and the value, or the bare flag where the value is optional |
| GoogleMockFlags.CatchValueForms | test/googletest/googlemock/src/gmock.cc:94-105 | the flag for leaked mocks is false exactly for the arguments that begin with its name, an equal sign and 0, f or F, and true for all its other forms |
| GoogleMockFlags.VerboseValueForms | test/googletest/googlemock/src/gmock.cc:111-123 | the flag for the log level takes exactly the text after its name and an equal sign |
| GoogleMockFlags.NumberIsRead | test/googletest/googletest/src/gtest-port.cc:1289-1299 | blank space, a sign and digits are read as the number whose decimal places the digits show |
| GoogleMockFlags.OnlyNumbersAreRead | test/googletest/googletest/src/gtest-port.cc:1289-1299 | and nothing else but the empty text is read as a number |
| GoogleMockFlags.BareBehaviorIsZero | test/googletest/googlemock/src/gmock.cc:126-137 | the bare flag for the default mock behaviour gives zero; with an equal sign it gives the number after it, if that is one of 32 bits |
| GoogleMockFlags.FlagsExclude | test/googletest/googlemock/src/gmock.cc:155-159 | no argument is two flags, so the order of the attempts does not matter |
| GoogleMockFlags.GoogleMock.ParseBoolFlag | test/googletest/googlemock/src/gmock.cc:94-105 | false exactly for values that start with 0, f or F; nothing changes without the flag |
| GoogleMockFlags.GoogleMock.ParseIntFlag | test/googletest/googlemock/src/gmock.cc:126-137 | a value that is no 32-bit number changes nothing and leaves the argument unrecognised |
| GoogleMockFlags.GoogleMock.TakeFlag | test/googletest/googlemock/src/gmock.cc:155-159 | at most one flag is set, by an argument that is recognised |
| GoogleMockFlags.GoogleMock.Init | test/googletest/googlemock/src/gmock.cc:144-176 | ends with the unrecognised arguments in order after the program name, their count, nulls behind them, everything beyond untouched, and each flag at its last value |
| GoogleMockFlags.NextIsRemoved | test/googletest/googlemock/src/gmock.cc:164-173 | shifting left by one, trailing null included, drops exactly the recognised argument |
| GoogleMockFlags.InitIsIdempotent | test/googletest/googlemock/src/gmock.cc:180-190 | a second call removes nothing and sets nothing |
| GoogleMockFlags.PrintedIntReadsBack | test/googletest/googletest/src/gtest-port.cc:1289-1325 | a printed number is read back exactly when it fits in 32 bits |
| IdentifierWords.ConvertIdentifierNameToWords | test/googletest/googlemock/src/gmock-internal-utils.cc:68-89 | the lower-cased longest words of the form letter and lower-case letters, or digits, with one space between them |
| IdentifierWords.SpelledIsJoined | test/googletest/googlemock/src/gmock-internal-utils.cc:75-87 | from any word boundary on, looking at one previous character is enough to find the longest words |
| IdentifierWords.WordsAreLongest | test/googletest/googlemock/src/gmock-internal-utils.cc:68-71 | the first letter or digit starts the longest word there, and the other words are those of what follows it |
| IdentifierWords.UpperCaseLetters | test/googletest/googlemock/src/gmock-internal-utils.cc:84-85 | which characters are letters and upper-case ones, and which lower-case letter belongs to which of these |
| IdentifierWords.LowerCaseLetters | test/googletest/googlemock/src/gmock-internal-utils.cc:79-79 | no other characters are lower-case letters |
| IdentifierWords.WordsPartitionText | test/googletest/googlemock/src/gmock-internal-utils.cc:68-71 | every word has the stated form, and the words together are the letters and digits of the name, in order |
| IdentifierWords.ConvertIsIdempotent | test/googletest/googlemock/src/gmock-internal-utils.cc:68-89 | converting the result again changes nothing |

## Left out

- Network access, JSON and the retry loop of `src/chainSoQuery.cpp`: the two queries read the ledger. An unknown
  transaction or output answers "fail"; a transaction named as a spender is always known, so the failure branch of
  `determineNextUtxoIndex` is not reached.
- The codecs of libtxref, which are not part of this model, with the programs and value classes that only wrap them.
- Printing, usage texts, logging, listeners, mutexes and process exit. Only results and state remain.
- Double overflow, infinities, NaN, negative zero, and fused multiply-add. Amounts are integers without a width; within
  the stated range they fit in 64 bits.
- The checks and defaults of `parseCommandLineArgs` once everything has been read (`src/createBtcrDid.cpp`, from line 189).
- Reading a number with `std::stod` and `std::stoi`, apart from the nearest double of a decimal amount.
- Cardinalities other than a lowest and a highest call count, actions, and argument matchers: a call comes with the list
  of expectations whose matchers accept it.
- Calls after an expectation was ordered too late or in a circle. Ordering itself is modelled there, but
  expectations set after calls are outside of what Google Mock promises, and with a circle the search for satisfied
  prerequisites need not end, so looking for a handler presumes the invariant.
- The lifetime of `InSequence` objects: whether an implicit sequence is alive, and which, is a parameter.
- MockRegistry.Registry.FindMatchingExpectation: the candidates come in any order; the declaration order of the code
  gives the youngest by `PickIsYoungest`.
- RandomGenerator.Random.Mash: the eighteen groups of the source text are two method texts called with the arguments of
  each group, so the lines of a group are written once instead of nine times; three methods hold six groups each.
- Equality, ordering, hashing, serialising and the seed constructor of the generator.
- `Randomize` and `DebugString` of the matrix.
- Memory of anyoption.cpp: malloc failures, unterminated file buffers, and text containing a null character. The three
  parallel arrays of a table are one array of records, and the initial capacity is positive.
- AnyOptions.AnyOption.Chomp: a text of blanks only becomes empty; the code walks back in front of the buffer there.
- AnyOptions.AnyOption.SetValue: options are declared before the first value is stored, because the value store does
  not grow; the class requires it.
- `setCommandPrefixChar`, `setCommandLongPrefix` and the limit on positional arguments as a parameter: the prefixes are
  the default ones, and the limit is the field that the call fills in by default.
- `InitGoogleTest`, which runs before the Google Mock flags are read, and wide-character arguments.
- GoogleMockFlags.PrintedIntReadsBack: `long` has 64 bits.
- Locales: letters and digits are those of ASCII.
