# Google Test and Google Mock, verified models

This project models the algorithmic parts of Google Test and Google Mock in Dafny and proves what
they promise. Code that changes state keeps its form: the bipartite matcher works on two arrays,
the edit distance on two tables, expectations, hunks, sequences, test cases and the test registry
are classes whose methods update their fields, and loops are loops. Each such method is proved
against a specification that does not mention it, and lemmas say what the specification means.
`dafny verify dfyconfig.toml` checks everything.

| file | what it is about |
|---|---|
| `BipartiteMatching.dfy` | the augmenting-path search behind `UnorderedElementsAre`: one pass gives a maximum matching, by a closed region of matchers that certifies it (the Koenig argument); the pre-check in front of it |
| `EditDistance.dfy` | the table-driven edit script: it replays, it costs what the table says, and exactly when it is minimal |
| `UnifiedDiff.dfy` | hunks, and the diff as a patch that turns one side into the other |
| `SimpleRegex.dfy` | the simple regular expression engine against a declarative language |
| `LazyMutex.dfy` | the lazily initialised Windows mutex as a protocol of any number of threads |
| `Expectations.dfy` | the graph of prerequisites that `After` and `InSequence` build, and what mock calls do to it |
| `StringLiterals.dfy` | the C++ string literal printer against a reader of C++ literals |
| `WideStrings.dfy` | UTF-16 and UTF-32 to UTF-8 and back |
| `XmlEscaping.dfy`, `XmlDocuments.dfy` | CDATA sections, attribute values and text against a reader of XML, on characters and on the bytes of the report |
| `Sharding.dfy`, `Shuffling.dfy`, `TestFilters.dfy`, `TestRunner.dfy` | registration order, the shuffle, the generator and its period, filters and their wildcard patterns, shards |
| `Common.dfy` | optional values, bytes and digits, division |

## Where the code and its promises differ

The models follow the code. Where that falls short of what a comment or the header says, a lemma
states exactly when the promise is kept.

- The header calls the edit script optimal, all edits costing the same. Where addition and removal
  tie below replacement, the code falls through to the replacement. `ReturnedScriptMinimalExactly`
  and `ReturnedScriptMinimalExactlyByTies` say when the returned script is minimal,
  `OptimalExactlyUnlessMisled` and `OptimalExactlyWithoutLosingTies` when those of all prefixes
  are; `ThreeReplacesWhereTwoEditsDo` is an input that fails, `TieOffTheWayDoesNoHarm` one where a
  tie does not matter.
- The header of a hunk leaves out the range of a side without edits, so it cannot always be read
  off: `HeaderTellsBothExactly`.
- A unified diff with no context lines is empty, whatever the difference: `CreateUnifiedDiff`.
- `RE::Init` takes the dollar sign of a final `\$` for an anchor and adds none, so `FullMatch`
  accepts strings with anything after it: `FullMatchIsWholeMatchExactly`.
- `AssertHeld` is to do nothing when the current thread holds the mutex. With nested locking the
  inner `Unlock` clears the owner, and it fails: `AssertHeldPassesExactlyForHolder`,
  `NestedHolderCanFail`.
- The printed `\0` swallows octal digits that follow: `RoundTripExactly`.
- A CDATA section is written as it is given: malformed UTF-8 and forbidden characters make the
  report unreadable, and a carriage return does not survive: `CDataReadsBackExactly`.
- The characters invalid in XML are to be removed. Where `char` is signed, everything beyond ASCII
  is removed with them; where it is not, U+FFFE and U+FFFF stay and make the report unreadable:
  `TestedRightExactly`, `RemoveInvalidXmlCharacters`, `DetailReadsBackExactly`.
- The const `GetTestCase(i)` looks up position `i` and not the `i`-th index:
  `AccessorsAgreeExactlyUnshuffled`.
- Values from 0x110000 to 0x1FFFFF are encoded in four bytes, though the comment announces a message
  for them, and NUL is encoded as nothing: `EncodedAsAnnouncedExactly`.
- The pre-check of `UnorderedElementsAre` is safe exactly because the sizes have been compared
  before: `PrecheckIsSafeExactlyForShapes`.

## Model

| member | source | states |
|---|---|---|
| `MatchingTheory.CoverBoundsMatching` | gmock/src/gmock-matchers.cc:206-221 | no matching has more pairs than a set of elements and matchers that covers it; the bound behind "no need to visit the left nodes more than once" |
| `MatchingTheory.PairableIffFullMatching` | gmock/src/gmock-matchers.cc:332-333 | a maximum matching has as many pairs as there are matchers if and only if every matcher can be given an element of its own |
| `MatchingTheory.PairingMatchesEverything` | gmock/src/gmock-matchers.cc:438-442 | with no more elements than matchers, a pairing matches every element and every matcher |
| `MatchingTheory.PrecheckIsSafeExactlyForShapes` | gmock/include/gmock/gmock-matchers.h:3389-3403 | the matrix shapes for which the pre-check never rejects a pairable input are exactly those with at most as many elements as matchers |
| `BipartiteMatching.MaxBipartiteMatchState.constructor` | gmock/src/gmock-matchers.cc:200-204 | nothing is matched at first, and both vectors have the sizes of the graph |
| `BipartiteMatching.LinkRestoresMutualReference` | gmock/src/gmock-matchers.cc:277-280 | the two assignments after a successful search close the gap in the mutual reference and open it only where the element came from |
| `BipartiteMatching.MaxBipartiteMatchState.TryAugment` | gmock/src/gmock-matchers.cc:243-285 | on failure nothing moves and the marked matchers are dead ends around the element; on success only that element becomes matched and mutual reference breaks only where it came from; matchers seen before, and those of a closed region, keep their partners, and no successful path enters such a region |
| `BipartiteMatching.RegionIsNoLargerThanItsPartners` | gmock/src/gmock-matchers.cc:293-298 | a set of matched matchers has as many partners, by mutual reference |
| `BipartiteMatching.ClosedRegionCertifiesMaximum` | gmock/src/gmock-matchers.cc:210-221 | if every unmatched element reaches only a closed region, no matching has more pairs |
| `BipartiteMatching.PairsAreMaximumMatching` | gmock/src/gmock-matchers.cc:231-237 | the listed pairs are then a maximum matching |
| `BipartiteMatching.MaxBipartiteMatchState.CollectPairs` | gmock/src/gmock-matchers.cc:231-237 | lists the matched elements in increasing order with their matchers |
| `BipartiteMatching.MaxBipartiteMatchState.Compute` | gmock/src/gmock-matchers.cc:206-238 | one pass gives a maximum matching along edges of the graph with distinct elements and matchers; the run-time check that the next element is unmatched never fails |
| `BipartiteMatching.FindMaxBipartiteMatching` | gmock/src/gmock-matchers.cc:307-310 | the result is a maximum matching of the graph |
| `BipartiteMatching.FindPairing` | gmock/src/gmock-matchers.cc:327-357 | true if and only if every matcher can be given a different element that satisfies it |
| `BipartiteMatching.VerifyAllElementsAndMatchersAreMatched` | gmock/src/gmock-matchers.cc:438-495 | true if and only if every element satisfies some matcher and every matcher is satisfied by some element |
| `BipartiteMatching.MatchAndExplain` | gmock/include/gmock/gmock-matchers.h:3376-3403 | with the size test and the pre-check in front, true if and only if some permutation of the elements satisfies the matchers one for one |
| `EditScripts.SplitLastEdit` | gmock/gtest/src/gtest.cc:1075-1080 | a list of edits is a script if and only if the list without its last edit is one, from where that edit leads |
| `EditScripts.MatchingIsOptimal` | gmock/gtest/src/gtest.cc:1048-1053 | consuming an equal pair never costs an edit |
| `EditScripts.LevenshteinIsLowerBound` | gmock/gtest/include/gtest/internal/gtest-internal.h:175-179 | no script makes fewer edits than the Levenshtein distance |
| `EditScripts.LevenshteinIsAttained` | gmock/gtest/include/gtest/internal/gtest-internal.h:175-179 | some script makes just as many |
| `EditScripts.MinimalIffLevenshtein` | gmock/gtest/include/gtest/internal/gtest-internal.h:175-179 | so a script is minimal if and only if it makes that many |
| `EditDistance.PopulateBorders` | gmock/gtest/src/gtest.cc:1030-1044 | the cells for an empty side hold its length in edits, and the only possible move |
| `EditDistance.FillTables` | gmock/gtest/src/gtest.cc:1045-1071 | every cell of both tables is that of the recursive definition |
| `EditDistance.CalculateOptimalEditsOfIds` | gmock/gtest/src/gtest.cc:1028-1083 | following the moves back from the last cell stays inside the tables, ends, and yields the script that the tables define |
| `EditDistance.ScriptReplays` | gmock/gtest/src/gtest.cc:1073-1082 | the script consumes all of left, produces all of right, matches only equal elements and replaces only different ones |
| `EditDistance.ScriptWeighsItsCost` | gmock/gtest/src/gtest.cc:1055-1069 | the last cell is the number of edits plus 0.00001 for every replacement |
| `EditDistance.CostIsBounded` | gmock/gtest/src/gtest.cc:1055-1069 | it is at most 1.00001 times the longer length |
| `EditDistance.CostIsZeroIffEqual` | gmock/gtest/src/gtest.cc:1048-1053 | it is zero if and only if the sequences are equal |
| `EditOptimality.CostTracksLevenshtein` | gmock/gtest/src/gtest.cc:1046-1071 | in a table without such ties the cost lies between the Levenshtein distance and 1.00001 times it |
| `EditOptimality.ReturnedScriptMinimalExactly` | gmock/gtest/include/gtest/internal/gtest-internal.h:175-179 | for sequences of any length, the returned script is minimal if and only if some minimal script that consumes equal pairs where it meets them passes through no cell that is misled by prices |
| `EditOptimality.MisledExactlyByLosingTie` | gmock/gtest/src/gtest.cc:1058-1068 | with fewer than 100000 lines on one side, a cell is misled if and only if it falls through to the replacement on a tie of a whole edit |
| `EditOptimality.ReturnedScriptMinimalExactlyByTies` | gmock/gtest/src/gtest.cc:1058-1068 | and the returned script is then minimal if and only if some minimal script that consumes equal pairs avoids these ties |
| `EditOptimality.TieOffTheWayDoesNoHarm` | gmock/gtest/src/gtest.cc:1058-1068 | a table with such a tie whose returned script is minimal all the same |
| `EditOptimality.OptimalExactlyUnlessMisled` | gmock/gtest/include/gtest/internal/gtest-internal.h:175-179 | the scripts of all prefixes are minimal if and only if no cell at all is misled |
| `EditOptimality.OptimalExactlyWithoutLosingTies` | gmock/gtest/src/gtest.cc:1058-1068 | and, with fewer than 100000 lines on one side, if and only if no cell falls through on such a tie |
| `EditOptimality.ThreeReplacesWhereTwoEditsDo` | gmock/gtest/src/gtest.cc:1064-1068 | turning aba into bab takes two edits, and the table answers with three replacements |
| `StringEdits.InternalStrings.GetId` | gmock/gtest/src/gtest.cc:1088-1100 | known strings keep their number, new ones get the next; different strings have different numbers |
| `StringEdits.SameEqualitiesSameScript` | gmock/gtest/src/gtest.cc:1104-1118 | the script depends only on which lines of one side equal which of the other |
| `StringEdits.CalculateOptimalEdits` | gmock/gtest/src/gtest.cc:1104-1118 | numbering the strings first does not change the script |
| `UnifiedDiff.Hunk.constructor` | gmock/gtest/src/gtest.cc:1128-1133 | a new hunk is empty and keeps its two starts |
| `UnifiedDiff.Hunk.FlushEdits` | gmock/gtest/src/gtest.cc:1166-1170 | moves the waiting removals, then the additions, to the body, which is then in order |
| `UnifiedDiff.Hunk.PushLine` | gmock/gtest/src/gtest.cc:1135-1151 | each side of the body grows by the line if it concerns that side; context at either end and the longest run inside grow or stop as they should |
| `UnifiedDiff.PushGrowsSides` | gmock/gtest/src/gtest.cc:1135-1151 | putting removals before waiting additions changes neither side |
| `UnifiedDiff.PushKeepsContext` | gmock/gtest/src/gtest.cc:1135-1151 | nor the context around and inside the body |
| `UnifiedDiff.PushRecordsChange` | gmock/gtest/src/gtest.cc:1135-1151 | nor which lines of left are removed and which of right are added |
| `DiffHeaders.DecimalIsExact` | gmock/gtest/src/gtest.cc:1175-1187 | a printed number reads back as the number |
| `DiffHeaders.HeaderReadsBack` | gmock/gtest/src/gtest.cc:1171-1187 | whatever ranges a header tells, those are read off it |
| `UnifiedDiff.Hunk.PrintHeader` | gmock/gtest/src/gtest.cc:1175-1187 | tells the range of a side if and only if the hunk takes lines from it or puts lines on it |
| `UnifiedDiff.HeaderTellsBothExactly` | gmock/gtest/src/gtest.cc:1171-1187 | both ranges can be read off the header if and only if the hunk both removes and adds lines |
| `UnifiedDiff.Hunk.Print` | gmock/gtest/src/gtest.cc:1153-1161 | the body is printed with removals before additions, and its two lengths are those of its sides |
| `UnifiedDiff.Hunk.HasAnyEdits` | gmock/gtest/src/gtest.cc:1163 | true if and only if the body holds an edit |
| `UnifiedDiff.MatchesAlign` | gmock/gtest/src/gtest.cc:1211-1215 | a run of matches moves both sides on alike, over equal lines |
| `UnifiedDiff.SkipMatches` | gmock/gtest/src/gtest.cc:1210-1215 | stops at the next edit, both sides moved on alike over equal lines |
| `UnifiedDiff.OpenHunk` | gmock/gtest/src/gtest.cc:1217-1223 | the hunk starts with the unchanged lines before the edit, as many as asked for or there are; no subtraction underflows |
| `UnifiedDiff.PushEdit` | gmock/gtest/src/gtest.cc:1239-1252 | each edit of the script adds its line or lines to the sides it concerns |
| `UnifiedDiff.FillHunk` | gmock/gtest/src/gtest.cc:1225-1253 | the hunk ends with enough context exactly where the next edit is too far away, or at the end; unless no context is asked for, it holds an edit and no run of twice the context |
| `UnifiedDiff.FindEdit` | gmock/gtest/src/gtest.cc:1230-1231 | the next edit at or after a place, or the end |
| `UnifiedDiff.NextHunk` | gmock/gtest/src/gtest.cc:1209-1261 | one round of the loop: a hunk that fits both sides after an equal stretch, or none if no edit is left or no context is asked for |
| `UnifiedDiff.AppendHunk` | gmock/gtest/src/gtest.cc:1207-1261 | one more hunk after an equal stretch extends the patched part of right |
| `UnifiedDiff.CreateUnifiedDiff` | gmock/gtest/src/gtest.cc:1203-1263 | the hunks occupy increasing, non-overlapping ranges; each is surrounded by its context, and edits share a hunk exactly if their contexts meet; applying them to left gives right if and only if some context is asked for or nothing changed; there are none if and only if the sides are equal or no context is asked for; and if some is, a line of left is a removed line if and only if the edit of the table's script that consumes it is a removal or replacement, a line of right is an added line if and only if the edit that produces it is an addition or replacement, and there are as many as the script has edits, replacements counted twice |
| `UnifiedDiff.OneEditPerLine` | gmock/gtest/src/gtest.cc:1239-1252 | each line of left is consumed, and each of right produced, by exactly one edit of the script |
| `SimpleRegexLanguage.ParseItemsIsSound` | gmock/gtest/src/gtest-port.cc:681-735 | what the grammar accepts is well formed and is written back as it was |
| `SimpleRegexLanguage.ParseItemsIsComplete` | gmock/gtest/src/gtest-port.cc:681-735 | every well-formed pattern is accepted as it is written |
| `SimpleRegexLanguage.ParseReadsExactlyTheWritten` | gmock/gtest/src/gtest-port.cc:681-735 | the valid patterns are exactly those that can be written, and are read in one way |
| `SimpleRegexLanguage.PunctuationByNumber` | gmock/gtest/src/gtest-port.cc:635-637 | the punctuation is that of ASCII, by the numbers of its characters |
| `SimpleRegexLanguage.EscapesByNumber` | gmock/gtest/src/gtest-port.cc:645-648 | the characters that may follow a backslash, by number |
| `SimpleRegexLanguage.SyntaxByNumber` | gmock/gtest/src/gtest-port.cc:705-731 | the characters that repeat an atom, and those that are atoms without a backslash, by number |
| `SimpleRegexLanguage.PlainAtomMatchesExactly` | gmock/gtest/src/gtest-port.cc:670 | a dot matches every character but the line feed, any other atom itself only |
| `SimpleRegexLanguage.EscapedAtomMatchesExactly` | gmock/gtest/src/gtest-port.cc:652-668 | each escaped atom matches exactly the characters listed by number; escaped punctuation matches itself, any other escape nothing |
| `SimpleRegex.ValidateRegex` | gmock/gtest/src/gtest-port.cc:679-735 | true if and only if there is a pattern and it is in the grammar |
| `SimpleRegex.MatchRepetitionAndRegexAtHead` | gmock/gtest/src/gtest-port.cc:737-766 | true if and only if some allowed number of repetitions of the atom is followed by a match of the rest |
| `SimpleRegex.MatchRegexAtHead` | gmock/gtest/src/gtest-port.cc:768-797 | true if and only if some prefix of the string, all of it when anchored, is in the language; nothing is read past a terminator and the recursion ends |
| `SimpleRegex.MatchesPrefixUnfolds` | gmock/gtest/src/gtest-port.cc:784-796 | a prefix is in the language if and only if it splits into one for the first atom and one for the rest |
| `SimpleRegex.MatchRegexAnywhere` | gmock/gtest/src/gtest-port.cc:799-820 | true if and only if some substring, respecting the anchors, is in the language |
| `SimpleRegex.FullPatternIsWritten` | gmock/gtest/src/gtest-port.cc:853-871 | the pattern built for full matches is valid again, and anchored at both ends unless an escaped dollar sign comes last |
| `SimpleRegex.RE.constructor` | gmock/gtest/src/gtest-port.cc:841-872 | validity is that of the pattern, and the built pattern is the anchored one |
| `SimpleRegex.RE.FullMatch` | gmock/gtest/src/gtest-port.cc:829-832 | true if and only if the pattern is valid and the whole string, or after a final escaped dollar sign a prefix, is in the language |
| `SimpleRegex.RE.PartialMatch` | gmock/gtest/src/gtest-port.cc:834-838 | true if and only if the pattern is valid and some substring is in the language |
| `SimpleRegex.FullMatchIsWholeMatchExactly` | gmock/gtest/src/gtest-port.cc:829-872 | a full match is a match of the whole string, for all strings, if and only if the pattern does not end in an escaped dollar sign |
| `LazyMutex.StepKeepsInv` | gmock/gtest/src/gtest-port.cc:259-321 | every step of any thread keeps the invariants of the phase, the initialiser and the owner |
| `LazyMutex.EveryRunIsSafe` | gmock/gtest/src/gtest-port.cc:282-321 | in every interleaving, nested or not, the section is created at most once, neither check of the phase fails, nobody leaves the lazy initialisation before it is complete, and no two threads have returned from more calls of Lock than of Unlock |
| `LazyMutex.SectionStays` | gmock/gtest/src/gtest-port.cc:290-299 | an initialised section is never taken away, and the phase only grows |
| `LazyMutex.AssertHeldPassesExactlyAfterLock` | gmock/gtest/src/gtest-port.cc:274-280 | the check passes if and only if the thread's last Lock or Unlock was a Lock |
| `LazyMutex.AssertHeldPassesExactlyForHolder` | gmock/gtest/include/gtest/internal/gtest-port.h:1680-1682 | without nested locking, if and only if the thread holds the mutex |
| `LazyMutex.NestedHolderCanFail` | gmock/gtest/include/gtest/internal/gtest-port.h:1680-1682 | with nested locking there is a run in which it fails for the holder, between its outer Lock and Unlock |
| `LazyMutex.SpinningThreadIsReleased` | gmock/gtest/src/gtest-port.cc:301-311 | a spinning thread is always released: steps of the initialising thread alone make the phase 2, and one step of its own then takes it out of the loop, ready for its call |
| `LazyMutex.MovesOnExactly` | gmock/gtest/src/gtest-port.cc:259-321 | in every reachable state a thread has a step that takes it on if and only if its check has not failed, it does not spin while another thread initialises, and it does not wait for a section that another thread holds |
| `PrerequisiteGraphs.PrerequisitesAreClosed` | gmock/src/gmock-spec-builders.cc:95-111 | transitive prerequisites include the immediate ones and those of each |
| `PrerequisiteGraphs.PrerequisitesAreLeast` | gmock/src/gmock-spec-builders.cc:95-111 | and are the least set that does |
| `UnsatisfiedPrerequisites.ReportedAreUnsatisfied` | gmock/src/gmock-spec-builders.cc:126-146 | everything reported is an unsatisfied transitive prerequisite |
| `UnsatisfiedPrerequisites.ReportedExactly` | gmock/src/gmock-spec-builders.cc:126-146 | what is reported is exactly the unsatisfied ends of paths along prerequisites whose inner expectations are all satisfied and were never called |
| `UnsatisfiedPrerequisites.NothingReportedIffAllSatisfied` | gmock/src/gmock-spec-builders.cc:126-146 | if whatever was called had its prerequisites satisfied, nothing is reported if and only if all transitive prerequisites are satisfied |
| `Expectations.ExpectationBase.RetireAllPreRequisites` | gmock/src/gmock-spec-builders.cc:94-111 | an unretired expectation retires exactly its transitive prerequisites and not itself, each after its own, so that retirement stays closed at every moment, which justifies the early return |
| `Expectations.ExpectationBase.RetireWithPreRequisites` | gmock/src/gmock-spec-builders.cc:101-108 | one round of its loop: a prerequisite that is not retired yet is, after its own prerequisites |
| `Expectations.ExpectationBase.AllPrerequisitesAreSatisfied` | gmock/src/gmock-spec-builders.cc:113-124 | true if and only if every transitive prerequisite is satisfied |
| `Expectations.ExpectationBase.FindUnsatisfiedPrerequisites` | gmock/src/gmock-spec-builders.cc:126-146 | adds exactly the unsatisfied prerequisites that are reachable through satisfied ones that have not been called |
| `Expectations.ExpectationBase.ShouldHandleArguments` | gmock/include/gmock/gmock-spec-builders.h:1091-1102 | true if and only if the expectation is not retired, all its transitive prerequisites are satisfied and the arguments match |
| `Expectations.ExpectationBase.ExplainMatchResultTo` | gmock/include/gmock/gmock-spec-builders.h:1104-1150 | names the first reason why not; says that the call matches if and only if it would be handled; the prerequisites listed are exactly the unsatisfied ends of paths through satisfied expectations that were never called, all unsatisfied immediate ones among them, and the list never comes out empty |
| `Expectations.ExpectationBase.GetActionForArguments` | gmock/include/gmock/gmock-spec-builders.h:1149-1218 | a call counts, retires what had to come first unless it is one too many, retires the expectation when the greatest number of calls is reached and it is asked to, makes or keeps it satisfied exactly within its cardinality, and keeps all expectations in order; the n-th call performs the n-th of the single actions, later ones the repeated one, those too many the default |
| `Expectations.CallsInOrderIsCalledInOrder` | gmock/src/gmock-spec-builders.cc:132-139 | being in order is what the search for unsatisfied prerequisites relies on |
| `Expectations.CallKeepsOrder` | gmock/include/gmock/gmock-spec-builders.h:1195-1213 | a call keeps the order |
| `Expectations.Sequence.AddExpectation` | gmock/src/gmock-spec-builders.cc:793-802 | the last expectation, unless it is the same one, becomes a prerequisite of the new one |
| `Expectations.AddingPrerequisiteIsSafe` | gmock/src/gmock-spec-builders.cc:794-802 | for an expectation that is nobody's prerequisite, neither called nor retired, that keeps the graph acyclic and everything in order |
| `Expectations.SequencePrerequisites` | gmock/src/gmock-spec-builders.cc:793-802 | in a sequence of fresh expectations the transitive prerequisites are exactly the earlier elements |
| `Expectations.ChainGrows` | gmock/src/gmock-spec-builders.cc:793-802 | adding a fresh expectation keeps a sequence one |
| `StringLiterals.PrintCharsAsStringTo` | gmock/gtest/src/gtest-printers.cc:259-278 | appends a quote, one token for each character, and a quote, the literal being broken exactly between a hex escape and a hexadecimal digit; only printable characters are appended |
| `StringLiterals.CharacterIsToken` | gmock/gtest/src/gtest-printers.cc:144-210 | a printable character other than quote and backslash is printed as itself, one with a simple escape with that, and only the others in hexadecimal |
| `StringLiterals.TokensAreUnique` | gmock/gtest/src/gtest-printers.cc:144-210 | that leaves one way to write each character, in printable characters |
| `StringLiterals.PrintedInTokens` | gmock/gtest/src/gtest-printers.cc:259-278 | and the printed string is these tokens with their breaks, in quotes |
| `StringLiterals.ReadCharacter` | gmock/gtest/src/gtest-printers.cc:144-210 | every character but NUL is read back from the way it is printed |
| `StringLiterals.ReadNul` | gmock/gtest/src/gtest-printers.cc:148-150 | a NUL is read together with up to two octal digits after it |
| `StringLiterals.FormatHexIntIsExact` | gmock/gtest/src/gtest.cc:1966-1970 | the digits of a hex escape are one or two and denote the character |
| `Bytes.HexDigitsAreExact` | gmock/gtest/src/gtest.cc:1966-1970 | for any number, the digits are upper case, without leading zeros, and denote it |
| `StringLiterals.ReadBody` | gmock/gtest/src/gtest-printers.cc:259-278 | for every string, the reader gets it with each NUL and the octal digits after it made one character |
| `StringLiterals.RoundTripExactly` | gmock/gtest/src/gtest-printers.cc:259-278 | the printed literal reads back as the string if and only if no NUL comes before an octal digit |
| `WideStrings.CodePointToUtf8` | gmock/gtest/src/gtest.cc:1759-1785 | the result for every 32-bit value: nothing for NUL, the bytes of the UTF-8 table up to 0x1FFFFF, and a message beyond |
| `WideStrings.EncodedAsAnnouncedExactly` | gmock/gtest/src/gtest.cc:1753-1758 | this is what the comment announces if and only if the value is between 1 and 0x10FFFF or beyond 0x1FFFFF |
| `WideStrings.DecodeFirstOfUtf8` | gmock/gtest/src/gtest.cc:1759-1785 | decoding, which rejects longer forms, undoes the encoding, whatever follows |
| `WideStrings.DecodeFirstReadsOnlyUtf8` | gmock/gtest/src/gtest.cc:1759-1785 | and whatever is decoded is the encoding of a code point, so no other bytes are taken for one |
| `WideStrings.WideStringToUtf8` | gmock/gtest/src/gtest.cc:1810-1844 | encodes the code points of the string up to the limit; with 16 bits surrogate pairs are combined, all else stands for itself |
| `WideStrings.Limited` | gmock/gtest/src/gtest.cc:1823-1830 | the limit leaves a prefix: everything for -1 or beyond the end, so many characters otherwise, and none for other negative numbers |
| `WideStrings.EncodeCodePoints` | gmock/gtest/src/gtest.cc:1787-1808 | with 16 bits, combining and splitting surrogate pairs cancel out, lone surrogates included |
| `WideStrings.Utf8RoundTrip` | gmock/gtest/src/gtest.cc:1810-1844 | with 16 bits, decoding the bytes and encoding them as UTF-16 gives any NUL-free string back |
| `WideStrings.Utf32RoundTripExactly` | gmock/gtest/src/gtest.cc:1810-1844 | with 32 bits, decoding the bytes gives the string back if and only if all its characters have 21 bits |
| `WideStrings.WellFormedCodePoints` | gmock/gtest/src/gtest.cc:1787-1808 | well-formed UTF-16 is decoded as section 2.2 of RFC 2781 says |
| `WideStrings.DecodeUtf16Exactly` | gmock/gtest/src/gtest.cc:1787-1808 | that reading succeeds exactly on the UTF-16 of sequences of scalar values, and gives these back |
| `XmlEscaping.FindEnd` | gmock/gtest/src/gtest.cc:3593 | the first place where a section would end, if there is one |
| `XmlEscaping.OutputXmlCDataSection` | gmock/gtest/src/gtest.cc:3587-3605 | writes the section with each inner end taken apart |
| `XmlEscaping.SectionBodyToEnd` | gmock/gtest/src/gtest.cc:3593-3599 | what is written up to and for the first inner end |
| `XmlEscaping.SectionBodyWithoutEnd` | gmock/gtest/src/gtest.cc:3600-3604 | data without an inner end is written as it is, and the section ended |
| `XmlEscaping.SectionReadsBack` | gmock/gtest/src/gtest.cc:3587-3605 | on characters: inside a section the text reads back, overlapping brackets included, if XML allows its characters, and is rejected otherwise |
| `XmlDocuments.DecodedSectionBody` | gmock/gtest/src/gtest.cc:3587-3605 | on bytes: the section of an encoded text is the encoded section of the text, and the section of malformed UTF-8 is malformed |
| `XmlDocuments.SectionContent` | gmock/gtest/src/gtest.cc:3587-3605 | what a processor reads for the section of any data: its characters with line ends handled, or nothing if the data is malformed or has a forbidden character |
| `XmlDocuments.CDataReadsBackExactly` | gmock/gtest/src/gtest.cc:3587-3605 | the section reads back as the data if and only if the data is well-formed UTF-8, XML allows all its characters and none of them is a carriage return |
| `XmlEscaping.EscapeXml` | gmock/gtest/src/gtest.cc:3476-3517 | escapes character by character: markup as entities, white space in attributes as references, what fails the test left out |
| `XmlEscaping.EscapedCharacterExactly` | gmock/gtest/src/gtest.cc:3476-3517 | which bytes are escaped, in which way, and which are left out, by their numbers; all others stay |
| `XmlDocuments.EscapedOfAllowed` | gmock/gtest/src/gtest.cc:3476-3531 | escaping leaves out just what RemoveInvalidXmlCharacters removes |
| `XmlDocuments.TestedRightExactly` | gmock/gtest/src/gtest.cc:3356-3365 | the test keeps the characters that section 2.2 of XML 1.0 allows if and only if it is right for those beyond ASCII: with a signed char there are none, and with an unsigned one neither U+FFFE nor U+FFFF |
| `XmlDocuments.RemoveInvalidXmlCharacters` | gmock/gtest/src/gtest.cc:3519-3531 | for text in UTF-8, the result is the text without the characters that XML forbids if and only if that is so |
| `XmlDocuments.AttributeContent` | gmock/gtest/src/gtest.cc:3463-3517 | what a processor reads for an escaped attribute value, after its normalisation, for any bytes |
| `XmlDocuments.AttributeReadsBackExactly` | gmock/gtest/src/gtest.cc:3463-3517 | for text in UTF-8, that is the text without its forbidden characters under the same condition |
| `XmlDocuments.TextContent` | gmock/gtest/src/gtest.cc:3476-3517 | what a processor reads for escaped text, after handling line ends, for any bytes |
| `XmlDocuments.TextReadsBackExactly` | gmock/gtest/src/gtest.cc:3476-3517 | for text in UTF-8, that is the text without its forbidden characters if and only if, besides, it has no carriage return |
| `XmlDocuments.DetailReadsBackExactly` | gmock/gtest/src/gtest.cc:3662-3663 | and so is what is read for the detail of a failure, which is filtered and put into a section |
| `Sharding.ShardSizeInClosedForm` | gmock/gtest/src/gtest.cc:4770-4776 | the size of each shard |
| `Sharding.ShardsAreBalanced` | gmock/gtest/src/gtest.cc:4770-4776 | no two shards differ by more than one test |
| `Sharding.ExactlyOneShardRuns` | gmock/gtest/src/gtest.cc:4770-4776 | every test id belongs to exactly one shard |
| `Sharding.ShardsAddUp` | gmock/gtest/src/gtest.cc:4770-4776 | all shards together run every test once |
| `Generator.StatesRecurExactly` | gmock/gtest/src/gtest.cc:311-313 | from any state below 2^31 the generator comes back to it after the multiples of 2^31 steps and after no other number: its period is full |
| `Generator.FirstStatesFromOne` | gmock/gtest/src/gtest.cc:311-313 | the first states after 1, in numbers |
| `Shuffling.Random.Generate` | gmock/gtest/src/gtest.cc:308-325 | one step modulo 2^31, which the wrap-around at 2^32 does not disturb; the number is below the range |
| `Shuffling.ShuffleRange` | gmock/gtest/src/gtest-internal-inl.h:306-329 | the range is shuffled as the numbers drawn say, and the rest left alone |
| `Shuffling.FisherYatesShuffles` | gmock/gtest/src/gtest-internal-inl.h:322-328 | whatever is drawn, the range is permuted |
| `Shuffling.FirstDrawShows` | gmock/gtest/src/gtest-internal-inl.h:322-328 | the element drawn first comes last |
| `Shuffling.ShuffleOfFour` | gmock/gtest/src/gtest-internal-inl.h:322-328 | two shuffles, element by element |
| `Shuffling.EveryShuffleCanBeDrawn` | gmock/gtest/src/gtest-internal-inl.h:322-328 | every permutation of the range comes out of some draws |
| `Shuffling.EveryShuffleIsDrawnOnce` | gmock/gtest/src/gtest-internal-inl.h:322-328 | and, of different elements, of one only: fair draws give a fair shuffle |
| `TestFilters.PatternMatchesExactly` | gmock/gtest/src/gtest.cc:457-477 | a pattern matches a string if and only if the string can be cut into pieces that fit its characters one by one; the pattern ends at the first colon |
| `TestFilters.MatchesFilterExactly` | gmock/gtest/src/gtest.cc:479-500 | a filter matches a name if and only if one of the patterns between its colons fits it |
| `TestFilters.FilterMatchesTestExactly` | gmock/gtest/src/gtest.cc:502-528 | a test is selected if and only if a pattern before the first dash fits its full name, or nothing stands there, and none after the dash does |
| `TestFilters.DeathTestCaseExactly` | gmock/gtest/src/gtest.cc:165 | a death test case is one whose name ends in DeathTest or contains DeathTest before a slash |
| `TestFilters.DisabledExactly` | gmock/gtest/src/gtest.cc:4809-4816 | a test is disabled if and only if its name or its test case's begins with DISABLED_, itself or after a slash |
| `TestRunner.TestCase.AddTestInfo` | gmock/gtest/src/gtest.cc:2752-2757 | the test comes last, in the list and in the order of running |
| `TestRunner.TestCase.ShuffleTests` | gmock/gtest/src/gtest.cc:2790-2793 | the order of running becomes the shuffled one, still a permutation |
| `TestRunner.TestCase.UnshuffleTests` | gmock/gtest/src/gtest.cc:2795-2800 | the order of running is that of registration again |
| `TestRunner.RegisterKeepsOrder` | gmock/gtest/src/gtest.cc:4517-4531 | a new death test case goes behind the others of its kind, any other to the end; both kinds stay in order of registration |
| `TestRunner.UnitTestImpl.FindIf` | gmock/gtest/src/gtest.cc:4506-4508 | the first test case of the name, or the end |
| `TestRunner.UnitTestImpl.Register` | gmock/gtest/src/gtest.cc:4517-4534 | keeps death tests first, both kinds in order, names unique and the run order that of the list |
| `TestRunner.UnitTestImpl.GetTestCase` | gmock/gtest/src/gtest.cc:4502-4535 | returns the one test case of the name, new only if there was none |
| `TestRunner.UnitTestImpl.AddTestInfo` | gmock/gtest/src/gtest-internal-inl.h:645-665 | the test is added to its test case, and no other test case changes |
| `TestRunner.SelectedPermutes` | gmock/gtest/src/gtest-internal-inl.h:582-587 | a permutation of the indices visits a permutation of the elements |
| `TestRunner.RunsAllOnceDeathTestsFirst` | gmock/gtest/src/gtest.cc:4939-4950 | however often shuffled, every test case runs exactly once and the death tests run first |
| `TestRunner.UnitTestImpl.GetMutableTestCase` | gmock/gtest/src/gtest-internal-inl.h:582-587 | the accessor that the tests are run through visits that sequence, and gives null outside |
| `TestRunner.UnitTestImpl.AccessorsAgreeExactlyUnshuffled` | gmock/gtest/src/gtest-internal-inl.h:574-587 | the two accessors agree on every argument if and only if the test cases are not shuffled |
| `TestRunner.UnitTestImpl.ShuffleTestCases` | gmock/gtest/src/gtest.cc:4941-4947 | the two kinds are shuffled separately, one after the other |
| `TestRunner.UnitTestImpl.ShuffleTests` | gmock/gtest/src/gtest.cc:4939-4953 | and then the tests of each test case, from the state of the generator that the one before left; the order of the kinds is kept |
| `TestRunner.UnitTestImpl.UnshuffleTests` | gmock/gtest/src/gtest.cc:4955-4963 | restores the order before the first shuffle, of test cases and of tests |
| `TestRunner.FilterSettings.IsRunnableExactly` | gmock/gtest/src/gtest.cc:4809-4825 | a test is runnable if and only if disabled tests are asked for or no name says that it is disabled, and the flag selects it |
| `TestRunner.FilterTestCase` | gmock/gtest/src/gtest.cc:4799-4836 | the tests of one test case get their flags, and the test case runs if and only if one of them does |
| `TestRunner.UnitTestImpl.FilterTests` | gmock/gtest/src/gtest.cc:4778-4840 | a test runs if and only if it is runnable and its number among the runnable ones is the shard's; the result counts them; a test case runs if and only if one of its tests does |
| `TestRunner.NumSelectedIsShardSize` | gmock/gtest/src/gtest.cc:4822-4831 | as many tests run as the shard's share of the runnable ones, or all without sharding |
| `TestRunner.RunsOnExactlyOneShard` | gmock/gtest/src/gtest.cc:4778-4840 | filtering with the same settings on every shard, a runnable test runs on exactly one of them and no other test runs on any |
| `TestRunner.ShardCountsAddUpAndBalance` | gmock/gtest/src/gtest.cc:4778-4840 | the results on all shards add up to the number of runnable tests and differ by at most one |

## Left out

- ReturnedScriptMinimalExactlyByTies, MisledExactlyByLosingTie and OptimalExactlyWithoutLosingTies: are about fewer than 100000 lines on one side, because from there on the small extra price of replacements adds up to whole edits; `ReturnedScriptMinimalExactly` and `OptimalExactlyUnlessMisled` cover every length.
- CostTracksLevenshtein: gives the bound in one direction only; a table with ties may meet the bound all the same.
- RemoveInvalidXmlCharacters, AttributeReadsBackExactly, TextReadsBackExactly and DetailReadsBackExactly: speak of the characters of a text and so of well-formed UTF-8; what is read for any bytes is in `AttributeContent`, `TextContent` and `SectionContent`.
- ExplainMatchResultTo: whether the arguments match is an input; the texts are not part of the model.
- GetActionForArguments: actions are known by their places in the list, not by what they do.
- ShuffleRange: takes and returns the contents of the vector that the original swaps in place through a pointer.
- ShuffleTests, FilterTests, RetireAllPreRequisites and their like take ghost parameters for the state of the objects they reach; these are not in the original.
- Floating point: edit costs are exact, in units of 0.00001, where the original adds doubles.
- Integer widths: lengths and counters are unbounded, `kUnused` is -1 and no size. The index in `ValidateRegex` is an int in the original. The generator and code points have their 32 bits.
- Bit operations on code points are written as arithmetic.
- `char` may be signed or not; `EscapeXml` is modelled for both. Strings of the regular expression engine and of wide strings are NUL-free, as C strings are.
- Printed text: messages, explanations, listeners, `IsInterested`, logging. The body of a hunk is modelled as the lines that are printed.
- Lines of a diff that hold a NUL: they are printed as C strings and cut there (gmock/gtest/src/gtest.cc:1222, 1244, 1247); a line of a hunk is modelled whole.
- Trigraphs are not part of the reader of C++ literals; a question mark is printed as it is.
- `Sleep(0)` in the spinning loop is a step that changes nothing; that a critical section excludes other threads is taken from its documentation. Constructors and destructors of dynamic mutexes are the initial state.
- Cardinalities are a least and a greatest number of calls; other cardinalities are user code.
- `AnalyzeElements`, which evaluates the matchers into the matrix, and matchers themselves: the matrix is an input.
- The environment and flags that select shards and filters are parameters; that the shard index is in range is checked before, in `ShouldShard`.
- `RunAllTests`: listeners, environments, repetition and seeds; only the order of running is modelled.
- Wide-character literals and the splitting of messages at NUL: the same shape as the narrow case.
- POSIX regular expressions, death tests, captured streams, sockets, file paths, colours and clocks: foreign calls.
- MatchesFilter: a recursion over the patterns, where the original loops.
- Generated headers and actions: repeated by arity, no algorithm. `MatchMatrix::NextGraph`, `SplitString` and flag parsing: easy members.
