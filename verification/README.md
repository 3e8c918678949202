# Verified models of four text and protocol algorithms

Dafny models, with proofs, of four crates of the repository:

- `bidi`, the Unicode Bidirectional Algorithm (UAX #9): paragraph level, explicit levels, level
  runs and isolating run sequences, weak, bracket, neutral and implicit resolution, and the
  reordering of lines;
- `codec`, the multiplexer's frames: variable-length integers (LEB128, section 7.6 of the DWARF 5
  standard), frame encoding and decoding, decoding from a growing buffer, and the extraction of
  hyperlinks from lines of cells;
- `base91`, the streaming basE91 encoder and decoder;
- `bintree`, the zipper over a binary tree: moves, edits and traversals.

Code that changes things step by step is modelled as methods that do the same: `BidiContext`,
`EmbeddingState`, `LevelStack`, `BracketStack`, `RunIter`, `ReadBuffer`, `Reader`,
`Base91Encoder` and `Base91Decoder` are classes whose methods rewrite their fields with the
source's loops. Each is proved against functions on values, and the lemmas are about these
functions. `dafny verify dfyconfig.toml` checks everything.

## How the files fit together

Shared: `Wrappers.dfy` and `Sequences.dfy`.

Bidi, bottom up. `BidiTypes.dfy` has classes, directions and levels; `LevelStack.dfy` the stack of
X1-X8. `ExplicitLevels.dfy` gives P2, P3 and X1-X8 as a step function on states;
`ParagraphLevels.dfy` relates the level of a paragraph to matching isolates, and
`IsolateNesting.dfy` holds the stack invariant, says when the code fails and shows what an isolate
restores; `EmbeddingNesting.dfy` does so for embeddings and overrides and derives every level and
override from what is open at a position. `LevelRuns.dfy`, `IsolatingRuns.dfy`, `SequenceEnds.dfy`
and `IsolateMatching.dfy` are X9, X10 and BD13; `OverriddenIsolates.dfy` is BD13 for initiators that
an override has rewritten. `WeakRules.dfy` and `NeutralRules.dfy` state W1-W7, N1 and N2 as
simultaneous rules and show that rewriting in place does not disturb them; `Brackets.dfy` and
`BracketRules.dfy` are BD16 and N0. `TextChains.dfy` and `Pipeline.dfy` carry a rule on one sequence
over to the whole text and put the passes together; `ParagraphSpec.dfy` is the whole resolution as
one function. `ChainOutcomes.dfy` says what N0 and the whole list of rules do to each sequence,
`BracketOverflow.dfy` what a bracket overflow does to the others, and `MarkRule.dfy` compares W1
with UAX #9. `RuleStatements.dfy`, `BracketStatements.dfy` and `ResolutionStatements.dfy` word the
rules over positions, classes and characters, without the functions the code is proved against, and
state what all of them together do to a sequence, a character and a line. `LineOrder.dfy`,
`LineLevels.dfy` and `ReorderedRuns.dfy` are L2, L1 and the runs handed to callers;
`LineFailures.dfy` has paragraphs on which these go wrong. `EmbeddingState.dfy`, `ChainScans.dfy`
and `BidiContext.dfy` are the imperative code.

Codec: `Leb128.dfy`, `Framing.dfy`, `AsyncFraming.dfy`, `FrameReader.dfy`, `SerializedLines.dfy`.
basE91: `BitStrings.dfy`, `Base91.dfy`, `Base91Streams.dfy`. `WireFormats.dfy` states both byte
formats digit by digit. Zipper: `BinTree.dfy`, `TreeItems.dfy`, `Traversal.dfy`.

## Where the code and its documentation differ

The models follow the code in each case.

- The level stack has 125 slots where section 3.3.2 of UAX #9 asks for 127, and a push on the full
  stack is dropped although the caller counts it. `CapacityExact` says when this makes no
  difference, and `FailsExactly` and `ProcessedExactly` when the code runs off its stack: exactly at
  a PDI that is to close an isolate whose push was dropped. No right-to-left paragraph and none with
  fewer than 125 initiators fails (`RtlProcessed`, `FewInitiatorsProcessed`);
  `DroppedIsolateEmptiesStack` is one that does.
- L2 starts its search for the lowest odd level at 126, which is also a possible level.
  `ClosedFormExact` says exactly for which lines the result is that of L2, and `TopReversed` is a
  paragraph whose line is not one of them.
- When more than 63 brackets are pending, the code leaves N0 for all later sequences as well, where
  BD16 speaks of the one at hand. `OverflowExactly` says that this shows exactly if N0 would have
  changed a later sequence, and `OverflowSpills` is a paragraph where it shows.
- W1 gives a mark behind a PDI the class PDI, where UAX #9 gives it ON. `TextW1DiffersExactly` says
  that no other marks are concerned, `PdiMarkDiffers` is an input, and `ParagraphMarkRuleIsUax` says
  that after N2 the difference is gone, unless a mark is a bracket.
- The sequences of BD13 are formed after overrides, so an initiator that an override has rewritten
  does not continue its sequence. `SourceBD13Exactly` says exactly when this shows, and
  `HiddenSplits` is a paragraph where it shows.
- `reordered_runs` looks up the levels of a line with positions in the paragraph.
  `LinesUpExactly` says that this works exactly for lines at the start of the paragraph (and for
  lines that display nothing), `InLineExactly` when it indexes out of bounds, `RunsListPrefix` what
  it returns otherwise; on the line of `SecondLineFails` it always fails.
- `postorder_next` walks the postorder backwards; `NotPostorder` says for which trees that is a
  postorder at all.
- The comment on `BidiRun` leaves open whether removed characters can be inside a run; `BidiRunsAre`
  shows they cannot.

## Model

| member | source | states |
|---|---|---|
| BidiTypes.LeastGreaterIsLeast | bidi/src/level.rs:33-57 | The next even or odd level is the least one above the current level, and there is none exactly if it would exceed 125. |
| LevelStacks.LevelStack.Push | bidi/src/level_stack.rs:35-51 | The stack's contents grow by the entry, or stay as they are when all 125 slots are taken. |
| LevelStacks.LevelStack.Pop | bidi/src/level_stack.rs:53-57 | The last entry goes; an empty stack stays empty. |
| LevelStacks.LevelStack.Top | bidi/src/level_stack.rs:59-77 | Level, override and isolate flag are those of the last entry. |
| EmbeddingStates.ComputeParagraphLevel | bidi/src/lib.rs:1846-1872 | The counting loop computes P2 and P3. |
| ParagraphLevels.CountIsInside | bidi/src/lib.rs:1846-1872 | The isolate counter is positive before a character exactly if some isolate that began earlier is still open there in the sense of BD9. |
| ParagraphLevels.ParagraphLevelIsP2 | bidi/src/lib.rs:1846-1872 | The level is that of the first strong character no isolate encloses, and the fallback if there is none. |
| ParagraphLevels.FirstStrongIsolate | bidi/src/lib.rs:1389-1460 | X5c: an FSI opens a right-to-left isolate exactly if P2 and P3 give level 1 for the text up to its matching PDI, or up to the end. |
| ResolutionStatements.HintStates | bidi/src/lib.rs:460-470 | A fixed hint gives level 0 or 1; an automatic one the level of the first strong character outside isolates, and 0 or 1 by its fallback if there is none. |
| EmbeddingStates.EmbeddingState.Embed | bidi/src/lib.rs:1341-1388 | An embedding or override does to stack and counters what the step function of X2-X5 says. |
| EmbeddingStates.EmbeddingState.OpenIsolate | bidi/src/lib.rs:1389-1421 | An isolate initiator does to stack and counters what the step function of X5a-X5c says. |
| EmbeddingStates.EmbeddingState.CloseIsolate | bidi/src/lib.rs:1422-1460 | A PDI does what X6a says; the loop that pops to an isolate entry ends, or runs off the stack exactly if there is no such entry. |
| EmbeddingStates.EmbeddingState.PopFormat | bidi/src/lib.rs:1461-1482 | A PDF does what X7 says. |
| IsolateNesting.StateWellFormed | bidi/src/lib.rs:1322-1490 | In every state of every run the bottom entry is a non-isolate at the paragraph level and levels strictly increase. |
| IsolateNesting.StackInvariant | bidi/src/lib.rs:1322-1490 | With enough slots, always so for base level 1, no state is lost, the count of valid isolates is the number of isolate entries, and the depth is at most top level - base + 1. |
| IsolateNesting.ExplicitLevelBounds | bidi/src/lib.rs:1322-1507 | Explicit levels lie between the paragraph level and 125; exactly the characters of X9 get none. |
| IsolateNesting.CapacityExact | bidi/src/level_stack.rs:35-51 | The 125-slot stack goes through the states of the 127-slot stack of UAX #9 if and only if that one never holds more than 125 entries. |
| IsolateNesting.RtlParagraphFits | bidi/src/level_stack.rs:35-51 | For base level 1 no push is ever dropped. |
| IsolateNesting.FewInitiatorsFit | bidi/src/level_stack.rs:35-51 | Nor is one in a paragraph with fewer than 125 embeddings, overrides and isolates. |
| IsolateNesting.FittingCompletes | bidi/src/level_stack.rs:35-51 | A paragraph that drops no push is processed to its end. |
| IsolateNesting.FailsExactly | bidi/src/lib.rs:1422-1460 | X1 to X8 run off the stack exactly if some PDI finds an isolate counted as open, none as overflowed and no isolate entry left on the stack. |
| ParagraphSpec.ProcessedExactly | bidi/src/lib.rs:1422-1460 | The same for paragraphs: each is processed if and only if it has no such PDI. |
| ParagraphSpec.RtlProcessed | bidi/src/lib.rs:1322-1490 | Every right-to-left paragraph is processed. |
| ParagraphSpec.FewInitiatorsProcessed | bidi/src/lib.rs:1322-1490 | So is every paragraph with fewer than 125 embeddings, overrides and isolates. |
| IsolateNesting.DroppedIsolateEmptiesStack | bidi/src/lib.rs:1389-1460 | A concrete paragraph whose last isolate is dropped and whose PDI then empties the stack; the 127-slot stack handles it. |
| IsolateNesting.IsolateRestores | bidi/src/lib.rs:1389-1460 | The whole state after the PDI that matches an initiator (BD9) is that before the initiator, whenever no push is dropped: with slots for all levels, or on the source's 125 slots for a paragraph that fits them. |
| IsolateNesting.SourceIsolateRestores | bidi/src/lib.rs:1389-1460 | The case of the 125-slot stack, for every paragraph that does not overflow it. |
| IsolateNesting.IsolateEndsAgree | bidi/src/lib.rs:1389-1460 | Whenever no push is dropped, a matching initiator and PDI are governed by the same entry and get the same explicit level. |
| IsolateNesting.IsolateContents | bidi/src/lib.rs:1389-1460 | Whenever no push is dropped, a character between them has a strictly greater level if the isolate was opened, and the initiator's level if it overflowed. |
| EmbeddingNesting.EmbeddingRestores | bidi/src/lib.rs:1461-1475 | X7: whenever no push is dropped, the whole state behind the PDF that matches an embedding or override, counted over positions within one isolate, is that before the initiator, opened or overflowed. |
| EmbeddingNesting.UnmatchedPdf | bidi/src/lib.rs:1461-1475 | A PDF that matches nothing changes nothing. |
| EmbeddingNesting.EmbeddingContents | bidi/src/lib.rs:1341-1388 | A character inside an embedding or override has a strictly greater level than around it if it was opened, and the same if it overflowed. |
| EmbeddingNesting.StateIsDecided | bidi/src/lib.rs:1322-1490 | At every position the state is that right behind the innermost initiator, of an isolate, embedding or override, still open there, and the first state if none is. |
| EmbeddingNesting.OpeningExactly | bidi/src/lib.rs:1341-1421 | An initiator opens if and only if a level is left for it and no initiator open around it has overflowed. |
| EmbeddingNesting.InsideOpened | bidi/src/lib.rs:1341-1490 | A character directly inside an opened initiator has the least greater level, odd for RLE, RLO, RLI and a right-to-left FSI and even otherwise; it becomes R in an RLO, L in an LRO, and keeps its class in the others. |
| EmbeddingNesting.InsideOverflowed | bidi/src/lib.rs:1341-1490 | Directly inside an initiator that overflowed, level and override are those around it. |
| EmbeddingNesting.OutsideAll | bidi/src/lib.rs:1322-1490 | Outside all initiators a character has the paragraph level and its own class. |
| EmbeddingNesting.SeparatorsAndRemoved | bidi/src/lib.rs:1477-1507 | A paragraph separator has the paragraph level wherever it stands; exactly RLE, LRE, RLO, LRO, PDF and BN have none. |
| LevelRuns.RunsAreLevelRuns | bidi/src/lib.rs:1510-1536 | The runs found are level runs: non-empty, ordered, of one level apart from removed characters, an isolate initiator only at the end, and bounded by a change of level or an initiator. |
| LevelRuns.LevelRunsUnique | bidi/src/lib.rs:1799-1841 | Any two lists of level runs of a text agree, so these are the level runs. |
| LevelRuns.RunContaining | bidi/src/lib.rs:1510-1536 | Every character that is not removed is in exactly one run, and has its level. |
| LevelRuns.SorEorAreX10 | bidi/src/lib.rs:1538-1554 | sor and eor are the directions of the higher of the levels on both sides of the boundary, the paragraph level standing in at the ends (X10). |
| IsolatingRuns.ChainsPartition | bidi/src/lib.rs:1596-1648 | Every run is in exactly one sequence, sequences ascend and keep to one level. |
| IsolatingRuns.SequencesCoverText | bidi/src/lib.rs:1596-1682 | Every character that is not removed occurs exactly once among all sequences, and each sequence's indices strictly increase. |
| IsolatingRuns.ChainsChosen | bidi/src/lib.rs:1596-1648 | In every text a sequence begins with a run that no earlier one has, goes on from a run exactly if that ends in an initiator and a free later run of its level begins with a PDI, and then with the first such run. |
| SequenceEnds.SequenceEndsAreX10 | bidi/src/lib.rs:1656-1700 | sos is the direction of the higher of the sequence's level and that of the nearest character before its first, eos that of the higher of its level and that of the nearest behind its last, the paragraph level standing in at the ends of the text and, for eos, behind an isolate initiator. |
| IsolateMatching.MatchesInjective | bidi/src/lib.rs:1556-1595 | No PDI matches two initiators. |
| IsolateMatching.MatchingRun | bidi/src/lib.rs:1596-1648 | Where no push is dropped and no isolate overflows, the run that begins with the matching PDI is a candidate of the look-ahead. |
| IsolateMatching.CandidateBehind | bidi/src/lib.rs:1596-1648 | Conversely, under the same conditions, if a later run of the initiator's level begins with a PDI, the initiator has a match, and the run that begins with the match comes no later. |
| IsolateMatching.SequencesAreBD13 | bidi/src/lib.rs:1596-1648 | Where no push is dropped, no isolate overflows and a separator stands only at the end, the look-ahead joins a run that ends in an initiator exactly to the run that begins with the matching PDI. |
| IsolateMatching.UnmatchedInitiatorEndsSequence | bidi/src/lib.rs:1596-1648 | Then a sequence that ends in an initiator ends there because the initiator has no match. |
| ParagraphSpec.SourceSequencesAreBD13 | bidi/src/lib.rs:1596-1648 | The sequences the code forms for a paragraph that fits its 125 slots, overflows no isolate and has a separator only at its end are those of BD13, for the initiators left after overrides. |
| OverriddenIsolates.SourceBD13Exactly | bidi/src/lib.rs:1596-1648 | For such a paragraph they are those of BD13 for the initiators of the text itself if and only if no override has rewritten an initiator with anything between it and its matching PDI. |
| OverriddenIsolates.HiddenSplits | bidi/src/lib.rs:1596-1648 | A paragraph, RLO RLI L PDI, on which the code separates an initiator from its PDI. |
| WeakRules.W4NoCascade | bidi/src/lib.rs:661-701 | A separator rewritten by W4 never makes the next one change: the scan back sees what it would have seen before. |
| WeakRules.W4InPlace | bidi/src/lib.rs:661-701 | W4 on a half-rewritten sequence gives what the simultaneous rule gives. |
| WeakRules.W2InPlace | bidi/src/lib.rs:550-579 | The same for W2 and its backward scan. |
| WeakRules.W7InPlace | bidi/src/lib.rs:758-783 | The same for W7 and its backward scan. |
| WeakRules.TouchedAlike | bidi/src/lib.rs:703-733 | All ET of one maximal stretch are touched by a European number or none is. |
| WeakRules.W5Step | bidi/src/lib.rs:703-733 | Spreading EN from one number in both directions keeps: exactly the ET whose stretch touches a number seen so far are EN. |
| RuleStatements.W1States | bidi/src/lib.rs:526-548 | W1 over positions: a mark takes the class of the last character that is neither a mark nor deleted, or sos; all else stays. |
| RuleStatements.W2States | bidi/src/lib.rs:550-579 | A European number becomes AN exactly if the last strong character before it is AL; all else stays. |
| RuleStatements.W3States | bidi/src/lib.rs:588-600 | Exactly AL becomes R. |
| RuleStatements.W4States | bidi/src/lib.rs:661-701 | A separator becomes EN exactly between two EN, a common separator AN exactly between two AN, deleted characters passed over; all else stays. |
| RuleStatements.W5States | bidi/src/lib.rs:703-733 | A terminator becomes EN exactly if the first character on one side that is neither a terminator nor deleted is EN; all else stays. |
| RuleStatements.W6States | bidi/src/lib.rs:735-756 | Exactly ES, CS and ET become ON. |
| RuleStatements.W7States | bidi/src/lib.rs:758-783 | A European number becomes L exactly if the last L or R before it is an L, or there is none and sos is L; all else stays. |
| RuleStatements.RulesInOrder | bidi/src/lib.rs:455-504 | On one sequence the weak rules run in the order W1 to W7, and N1 before N2. |
| MarkRule.SequencesFollowed | bidi/src/lib.rs:1596-1648 | In every sequence an isolate initiator is the last character that is not removed, or a PDI comes next. |
| MarkRule.TextW1DiffersExactly | bidi/src/lib.rs:526-548 | On every sequence of a text the code's W1 and that of UAX #9 differ if and only if some mark attaches to a PDI. |
| MarkRule.MarkBehindInitiator | bidi/src/lib.rs:526-548 | A mark behind an isolate initiator begins a sequence and takes sos, in the code and by UAX #9. |
| MarkRule.PdiMarkDiffers | bidi/src/lib.rs:526-548 | On LRI PDI NSM the code makes the mark a PDI, UAX #9 makes it ON. |
| MarkRule.ParagraphMarkRuleIsUax | bidi/src/lib.rs:455-504 | If no mark is in the bracket table, every paragraph has the same classes after N2 with either version of W1. |
| NeutralRules.N1InPlace | bidi/src/lib.rs:1041-1071 | N1 on a sequence rewritten from the end gives what the simultaneous rule gives. |
| NeutralRules.N1RunUniform | bidi/src/lib.rs:1041-1196 | The neutrals of one maximal stretch get the same direction, or all keep their class. |
| RuleStatements.N1States | bidi/src/lib.rs:1041-1196 | A neutral takes the direction shown on both sides of its stretch if it is the same, numbers showing R and sos and eos standing in at the ends; all else stays. |
| RuleStatements.N2States | bidi/src/lib.rs:1198-1207 | What is still neutral becomes R at an odd level and L at an even one. |
| Brackets.PairingIsBd16 | bidi/src/lib.rs:1904-1981 | The stack and pairs are at every point those of BD16: each closing bracket is paired with the nearest pending compatible opening bracket, pairs never cross, and the stack holds exactly the pending ones. |
| Brackets.PairsAreApart | bidi/src/lib.rs:1904-1981 | Pairs share no position and do not cross. |
| Brackets.SortSorts | bidi/src/lib.rs:836-839 | Sorting orders the pairs by opening position and loses none. |
| BracketStatements.PairsAreBracketPairs | bidi/src/lib.rs:1904-1981 | Over classes and characters: the pairs N0 resolves are exactly those of BD16, of brackets still ON, canonical equivalents included, in the order of their opening brackets. |
| BracketStatements.OverflowStates | bidi/src/lib.rs:1919-1946 | N0 gives up on a sequence exactly if an opening bracket finds 63 others waiting. |
| Brackets.BracketStack.Push | bidi/src/lib.rs:1919-1946 | Adds a pending opening bracket, or refuses it when 63 are pending. |
| Brackets.BracketStack.SeekMatchingOpenBracket | bidi/src/lib.rs:1948-1980 | Pairs a closing bracket as the pairing function does and drops the brackets above its partner. |
| BracketRules.PairOutcome | bidi/src/lib.rs:877-1039 | After all pairs both brackets of each have the direction N0 finds for the pair when its turn comes, and keep their class if it finds none. |
| BracketRules.ChainPairsApart | bidi/src/lib.rs:804-875 | The pairs found in a sequence never touch each other's brackets. |
| BracketRules.N0Strengthens | bidi/src/lib.rs:804-1039 | N0 changes a class only to L or R, and never that of a removed character. |
| ChainOutcomes.N0Outcome | bidi/src/lib.rs:804-1039 | In what N0 returns for a sequence, if no mark is a bracket, both brackets of each of its pairs have the direction found for the pair in its turn, or the classes they had if none was found. |
| BracketStatements.N0States | bidi/src/lib.rs:877-1039 | N0 is a run of turns, one for each pair: a pair with the embedding direction inside gets it; one with only the opposite inside gets that if the last character before the opening bracket that is not neutral, or sos, shows it, and the embedding direction otherwise; the marks behind its brackets follow; with neither inside nothing changes. |
| BracketStatements.N0RunUnique | bidi/src/lib.rs:877-1039 | This description leaves no choice. |
| BracketStatements.PairStates | bidi/src/lib.rs:877-1039 | If no mark is a bracket, what a pair is given in its turn is what N0 leaves it, and a pair with nothing strong inside keeps the classes it had before N0. |
| ChainOutcomes.CodeN0Is | bidi/src/lib.rs:804-875 | Up to the first overflow each sequence reads exactly its own N0; the overflowing one and all behind it read what they showed before. |
| ChainOutcomes.OverflowExactly | bidi/src/lib.rs:804-875 | The code does what the rule does if and only if no sequence behind an overflowing one would be changed by its own N0. |
| ChainOutcomes.OnlyLastOverflows | bidi/src/lib.rs:804-875 | In particular if at most the last sequence overflows. |
| BracketOverflow.OverflowSpills | bidi/src/lib.rs:804-875 | With 64 or more opening brackets before an isolate that contains a ( a ) and a Hebrew letter, the code resolves the closing bracket to R, the rule to L. |
| BracketOverflow.NothingAbandoned | bidi/src/lib.rs:455-504 | A paragraph on which no sequence is abandoned so has the classes the rule gives it. |
| TextChains.ViewOfOther | bidi/src/lib.rs:526-548 | A sequence without common indices does not see it. |
| Pipeline.PassesView | bidi/src/lib.rs:455-504 | After any number of passes over all sequences each sequence reads as if the passes had run on it alone. |
| ChainOutcomes.ShownIsWeak | bidi/src/lib.rs:455-504 | N0 finds on each sequence what W1 to W7 make of that sequence alone. |
| ChainOutcomes.FinalOfChain | bidi/src/lib.rs:455-504 | The final classes of each sequence are N2 of N1 of its own N0 of W7 to W1 of what it showed, whatever the others hold, and without N0 from the first overflowing sequence on. |
| ChainOutcomes.RuleOfChain | bidi/src/lib.rs:455-504 | By the rule only an overflowing sequence goes without N0. |
| ResolutionStatements.SequenceResolved | bidi/src/lib.rs:455-504 | The final classes of each sequence are N2 of N1 of the turns of N0, or of nothing where an overflow has come, on W7 to W1 of what it showed after X9. |
| ResolutionStatements.ClassesResolved | bidi/src/lib.rs:449-504 | The same without N0 where only classes are given. |
| Pipeline.WeakPossible | bidi/src/lib.rs:526-802 | Which classes can be left after each of W1 to W7; removed characters keep theirs. |
| Pipeline.NeutralResolves | bidi/src/lib.rs:1041-1207 | After N1 and N2 only L, R, EN and AN are left. |
| Pipeline.AllResolved | bidi/src/lib.rs:455-504 | After all passes every character of the text that is not removed is L, R, EN or AN. |
| Pipeline.ImplicitLevelIs | bidi/src/lib.rs:1209-1241 | I1 and I2 never lower a level, give at most 126, and an odd level exactly to R. |
| RuleStatements.ImplicitStates | bidi/src/lib.rs:1209-1241 | I1 and I2: R goes to the least odd level from its own on, L to the least even one, a number to the least even one above its own. |
| ResolutionStatements.LevelResolved | bidi/src/lib.rs:1209-1241 | So every character of a paragraph has the least level its final class may have from its explicit level on. |
| ParagraphSpec.SequencesAreFit | bidi/src/lib.rs:1596-1700 | The sequences of any text are disjoint, cover it and carry L or R at their ends. |
| ParagraphSpec.ParagraphResolved | bidi/src/lib.rs:455-504 | The whole resolution: a removed character keeps its class and gets no level; any other ends as L, R, EN or AN with a level between the paragraph level and 126 that is odd exactly for R. |
| BidiContexts.BidiContext.ExplicitEmbeddingLevels | bidi/src/lib.rs:1322-1490 | The loop over the text computes the explicit levels and classes of the step function, and fails exactly on paragraphs that run off the stack. |
| BidiContexts.BidiContext.DeleteFormatCharacters | bidi/src/lib.rs:1493-1507 | X9: exactly the removed classes lose their level. |
| BidiContexts.BidiContext.IdentifyRuns | bidi/src/lib.rs:1510-1536 | The scan stores the level runs with sor and eor. |
| BidiContexts.BidiContext.LookAhead | bidi/src/lib.rs:1608-1641 | The inner loop collects the runs of the sequence that begins at a run and marks exactly these as taken. |
| BidiContexts.BidiContext.IdentifyIsolatingRunSequences | bidi/src/lib.rs:1596-1700 | The nested loops compute the sequences with their indices, sos and eos. |
| BidiContexts.BidiContext.ResolveCombiningMarks | bidi/src/lib.rs:526-548 | In place, W1 on every sequence. |
| BidiContexts.BidiContext.ResolveEuropeanNumbers | bidi/src/lib.rs:550-579 | In place, W2 as the simultaneous rule on every sequence. |
| BidiContexts.BidiContext.ResolveArabicLetters | bidi/src/lib.rs:588-600 | In place, W3. |
| BidiContexts.BidiContext.ResolveSeparators | bidi/src/lib.rs:602-701 | In place, W4 as the simultaneous rule. |
| BidiContexts.BidiContext.ResolveTerminators | bidi/src/lib.rs:703-733 | In place, W5: an ET becomes EN exactly if its maximal stretch of ET touches an EN. |
| BidiContexts.BidiContext.ResolveEsCsEt | bidi/src/lib.rs:735-756 | In place, W6. |
| BidiContexts.BidiContext.ResolveEn | bidi/src/lib.rs:758-783 | In place, W7 as the simultaneous rule. |
| BidiContexts.BidiContext.ResolvePairedBrackets | bidi/src/lib.rs:804-1039 | In place, N0 on one sequence after the other, stopping for good at a bracket overflow. |
| BidiContexts.BidiContext.ResolveNeutralsByContext | bidi/src/lib.rs:1041-1196 | In place, N1 as the simultaneous rule. |
| BidiContexts.BidiContext.ResolveNeutralsByLevel | bidi/src/lib.rs:1198-1207 | In place, N2. |
| BidiContexts.BidiContext.ResolveImplicitLevels | bidi/src/lib.rs:1209-1241 | In place, I1 and I2. |
| BidiContexts.BidiContext.Resolve | bidi/src/lib.rs:455-504 | Classes and levels afterwards are those of the whole resolution as a function of types, hint, text and bracket table alone: nothing left over from an earlier use of the context matters. |
| BidiContexts.BidiContext.ReorderLine | bidi/src/lib.rs:277-284 | L1 and the reversals of L2 for a line of a resolved paragraph, with the exact condition for the closed form of L2. |
| BidiContexts.BidiContext.ReorderedRuns | bidi/src/lib.rs:236-271 | For a line at the start of the paragraph that L2 orders as it should, the runs read one after the other give the display order, and each is a stretch of one level without other characters. For any line: it fails exactly if a character is shown whose position in the paragraph lies behind the line's length, and otherwise its runs list the display order up to some position, all of it exactly if the line starts the paragraph or shows nothing. |
| LineOrder.ReverseInPlace | bidi/src/lib.rs:390-418 | Swapping from both ends reverses a stretch of the array. |
| LineOrder.ReverseRunsAt | bidi/src/lib.rs:372-419 | One pass reverses every maximal stretch at a level or above, although removed characters leave holes in it. |
| LineOrder.ReverseLevels | bidi/src/lib.rs:340-432 | The result holds every character that is not removed exactly once and two of them are in logical order as the reversals from the lowest odd level upwards leave them. |
| LineOrder.ClosedFormExact | bidi/src/lib.rs:340-432 | Two characters are displayed in logical order exactly if the least level between them is even, for all pairs of a line, if and only if the line has an odd level or no two neighbours of level 126. |
| LineOrder.ClosedFormUnique | bidi/src/lib.rs:340-432 | This condition determines the display order. |
| LineFailures.TopReversed | bidi/src/lib.rs:340-432 | 124 nested embeddings and two Arabic numbers: both numbers end at level 126, and no order the code can give the line is that of L2. |
| LineLevels.ResetWhitespaceLevels | bidi/src/lib.rs:1266-1319 | The repeated backward scans compute L1 in its declarative form: separators, and whitespace and isolate controls before a separator or the end with only such or removed characters between, get the paragraph level and nothing else changes. |
| LineLevels.L1Bounds | bidi/src/lib.rs:1266-1319 | L1 keeps levels in bounds and removed characters removed. |
| ResolutionStatements.L1States | bidi/src/lib.rs:1266-1319 | A character of a line gets the paragraph level exactly if it is S or B, or WS, FSI, LRI, RLI or PDI with only such or removed characters up to an S, a B or the end of the line; any other keeps its level. |
| LineLevels.RunIter.Next | bidi/src/lib.rs:136-169 | The iterator yields the next run and goes on after it, skipping removed stretches. |
| LineLevels.RunsOneByOne | bidi/src/lib.rs:136-169 | Calling it until it is exhausted yields the runs of the line. |
| LineLevels.BidiRunsAre | bidi/src/lib.rs:79-194 | These runs are ordered, disjoint, uniform and maximal in level, never contain a removed character, and cover exactly the others. |
| ReorderedRuns.ComputeReorderedRuns | bidi/src/lib.rs:236-271 | Looking up the levels, cutting them into spans and taking least and greatest index; it fails exactly when an index is outside the line. |
| ReorderedRuns.LinesUpExactly | bidi/src/lib.rs:236-250 | Every visual position gets the level of the character displayed there if and only if the line starts the paragraph or displays nothing. |
| ReorderedRuns.InLineExactly | bidi/src/lib.rs:236-250 | The lookup is out of bounds exactly if a character is shown whose position in the paragraph is not one in the line. |
| ReorderedRuns.RunsListPrefix | bidi/src/lib.rs:236-271 | Otherwise the runs list the beginning of the display order, and all of it exactly if the line starts the paragraph or displays nothing. |
| LineFailures.SecondLineFails | bidi/src/lib.rs:236-250 | For the second of two letters as a line of its own the lookup is always out of bounds. |
| ReorderedRuns.NeighboursTouch | bidi/src/lib.rs:236-271 | Visual neighbours of one level have only removed characters between them, and are in logical order exactly if the level is even. |
| ReorderedRuns.ReorderedRunsAre | bidi/src/lib.rs:236-271 | The runs read off the display order, and the range of each holds exactly the shown characters it lists, upwards for an even level and downwards for an odd one. |
| Leb128.LebRoundTrip | codec/src/lib.rs:152-160 | Reading back a 64-bit value gives it and takes exactly its bytes, whatever follows. |
| Leb128.LebPrefix | codec/src/lib.rs:152-160 | A value cut short anywhere asks for more bytes. |
| Leb128.ReadLebSettled | codec/src/lib.rs:152-160 | Any other answer does not depend on later bytes. |
| Leb128.ReadLebFits | codec/src/lib.rs:152-160 | A value that was read fits 64 bits and has no shorter encoding than the one written. |
| Leb128.LebSize | codec/src/lib.rs:43-56 | The encoded length is the least k with n < 128^k, at least one. |
| WireFormats.LebDigits | codec/src/lib.rs:76-78 | Byte i of a value holds its base-128 digit i, with the top bit set on all bytes but the last. |
| WireFormats.LebErrors | codec/src/lib.rs:152-160 | A value is refused exactly if nine bytes continue and the tenth exceeds one, and asks for more exactly if fewer than ten bytes all continue. |
| Leb128.EncodedLength | codec/src/lib.rs:43-56 | Writing to a counting sink gives the encoded length. |
| Leb128.WriteUnsigned | codec/src/lib.rs:76-78 | The encoding loop appends the value's bytes. |
| Leb128.ReadUnsigned | codec/src/lib.rs:152-160 | The decoding loop agrees with the definition of decoding, errors included. |
| Framing.EncodeRaw | codec/src/lib.rs:60-90 | The buffer is tagged length, serial, ident and data in this order. |
| Framing.DecodeRaw | codec/src/lib.rs:237-280 | The reads in sequence decode the frame at the front of a buffer and leave the cursor behind it, or report which error. |
| WireFormats.FrameOnTheWire | codec/src/lib.rs:237-280 | Three numbers and the bytes behind them: the first, without its highest bit, declares the size of the rest and must cover the serial number and the identifier that follow; what remains is the payload, and the highest bit says whether it is compressed. |
| WireFormats.LengthOnTheWire | codec/src/lib.rs:60-90 | The declared length is the size of what follows, plus 2^63 for a compressed payload. |
| WireFormats.FrameExample | codec/src/lib.rs:1150-1153 | The bytes of a frame with identifier 0x81, serial number 0x42 and payload hello. |
| Framing.FrameRoundTrip | codec/src/lib.rs:60-280 | Decoding an encoded frame, whatever follows it, gives the frame and takes exactly its bytes, if and only if its declared length leaves the tag bit free. |
| Framing.FrameSettled | codec/src/lib.rs:237-280 | Any answer but "more bytes" stays when more bytes arrive. |
| Framing.FramePrefix | codec/src/lib.rs:237-280 | Every proper prefix of a frame asks for more bytes. |
| Framing.FramesInTwo | codec/src/lib.rs:525-558 | Frames can be taken off any byte stream, well formed or not, in two goes cut anywhere. |
| Framing.FramesOfAll | codec/src/lib.rs:525-558 | Encoded frames followed by part of another decode to exactly these frames, with that part left. |
| AsyncFraming.ReadU64 | codec/src/lib.rs:124-150 | Reading byte by byte and retrying gives the same value, error and position as decoding at once. |
| AsyncFraming.DecodeRawAsync | codec/src/lib.rs:172-233 | The asynchronous decoder is the synchronous one, except that it refuses exactly the serial numbers above a positive limit. |
| WireFormats.RefusedFrames | codec/src/lib.rs:172-233 | A frame is refused exactly if a positive limit is given and its serial number exceeds it. |
| FrameReader.ReadBuffer.DropFront | codec/src/lib.rs:529-543 | Moving the bytes behind the frame forward one by one and truncating leaves exactly them. |
| FrameReader.ReadBuffer.StreamDecode | codec/src/lib.rs:525-558 | One frame comes off the buffer; with less than a frame or a bad one the buffer is unchanged. |
| FrameReader.TryReadAndDecode | codec/src/lib.rs:560-589 | The outcome is a function of the bytes readable before the next stop and of that stop, never of how they were cut into reads; buffer and unread bytes together lose exactly the frame. |
| FrameReader.ReadFrames | codec/src/lib.rs:560-589 | Over any number of calls the frames returned are those of the whole stream in order and the rest stays ahead; enough calls return all. |
| FrameReader.ReceiveAll | codec/src/lib.rs:560-589 | Frames sent whole, cut anywhere and with pauses anywhere, are received as sent. |
| SerializedLines.StreaksExact | codec/src/lib.rs:1016-1072 | The recorded ranges of a line are exactly the maximal stretches of cells with the same hyperlink, ascending, and cover exactly the linked cells. |
| SerializedLines.TakeLinks | codec/src/lib.rs:1016-1101 | The loop over the cells unsets every hyperlink and records one entry for each streak. |
| SerializedLines.FromLines | codec/src/lib.rs:1011-1103 | The same for all lines. |
| SerializedLines.ExtractData | codec/src/lib.rs:983-1008 | For any records, overlapping or out of range too: each makes one new hyperlink, and a cell gets that of the last record covering it. |
| SerializedLines.OwnerIsStreak | codec/src/lib.rs:983-1103 | A cell is covered after serialization exactly if it had a hyperlink, and then by the record of its own streak with its hyperlink's value. |
| SerializedLines.SharedOwner | codec/src/lib.rs:983-1103 | Two cells share the deciding record exactly if they belong to one streak of one line. |
| SerializedLines.RoundTrip | codec/src/lib.rs:983-1103 | After serializing and extracting every cell has its hyperlink's value back, and two cells share a hyperlink exactly if they belong to one streak. |
| Base91.EncodedIsAlphabet | base91/src/lib.rs:38-38 | The encoding function is the 91-character table. |
| Base91.TablesAgree | base91/src/lib.rs:38-68 | The decoding table undoes the encoding table. |
| Base91.AlphabetCovered | base91/src/lib.rs:38-68 | A byte the decoding table accepts is a character of the encoding table. |
| Base91.GroupValue | base91/src/lib.rs:94-108 | The value of a 13- or 14-bit group is below 91 * 91 and tells which of the two it was. |
| Base91.GroupRoundTrip | base91/src/lib.rs:94-193 | The pair of digits written for a group stands for exactly its bits. |
| Base91.DigitPairsAreGroups | base91/src/lib.rs:94-193 | Every pair of digits is written for exactly one group. |
| Base91.GroupsKeepBits | base91/src/lib.rs:89-115 | The groups and the bits left over are the data, with no bit lost. |
| WireFormats.BitOrder | base91/src/lib.rs:89-115 | Bits are taken byte by byte, the lowest of each byte first. |
| WireFormats.GroupsOnTheWire | base91/src/lib.rs:89-115 | A group takes 13 bits if they are worth more than 88 and 14 otherwise, and its value is written in base 91, low digit first. |
| WireFormats.EndOnTheWire | base91/src/lib.rs:117-132 | The bits left take no digit if there are none, one if they are at most seven and worth at most 90, and two otherwise. |
| WireFormats.CharacterAt | base91/src/lib.rs:38-38 | The text holds the table's character of each digit, in order. |
| Base91.DigitsRoundTrip | base91/src/lib.rs:89-217 | Decoding the digits of a byte string gives the byte string, in every case of the flush. |
| Base91.RoundTrip | base91/src/lib.rs:136-230 | decode(encode(x)) = x for every byte string. |
| Base91.NoiseIsSkipped | base91/src/lib.rs:40-43 | Inserting bytes outside the alphabet anywhere in a text does not change what it decodes to. |
| Base91.SizeBounds | base91/src/lib.rs:1-6 | For L bytes and a text of n characters, 8 L <= 7 n and 13 n <= 16 L + 12. |
| Base91Streams.Base91Encoder.Write | base91/src/lib.rs:89-115 | Writes the digits of the pending and new bits and keeps the bits left, the accumulator always below 2^bits. |
| Base91Streams.Base91Encoder.Flush | base91/src/lib.rs:117-132 | Writes nothing, one digit or two for the bits left. |
| Base91Streams.WritesJoin | base91/src/lib.rs:89-115 | Two writes have the effect of one. |
| Base91Streams.Base91Decoder.Write | base91/src/lib.rs:176-206 | Writes the whole bytes of the pending bits and of the pairs of digits in the text, and keeps the rest and an odd digit. |
| Base91Streams.Base91Decoder.Flush | base91/src/lib.rs:208-216 | An odd digit completes one byte with the pending bits; what does not fit the byte is dropped. |
| Base91Streams.DecodesJoin | base91/src/lib.rs:176-206 | Decoding in two writes has the effect of one. |
| Base91Streams.Encode | base91/src/lib.rs:136-144 | The encoder object computes the encoded text, and it decodes to the data. |
| Base91Streams.Decode | base91/src/lib.rs:221-229 | The decoder object computes the decoded data. |
| BinTree.IntoTree | bintree/src/lib.rs:547-554 | Climbing to the top hands out the tree around the position. |
| BinTree.LeavesAround | bintree/src/lib.rs:74-96 | The leaves of the whole tree are those before, at and after a position, in this order. |
| BinTree.ProperAround | bintree/src/lib.rs:10-13 | The whole tree is proper exactly if the parts in cursor and path are. |
| BinTree.SplitInsertsOne | bintree/src/lib.rs:324-394 | Each split inserts one leaf right before or right after the leaves of the position. |
| BinTree.UnsplitRemovesOne | bintree/src/lib.rs:301-322 | Unsplitting works exactly on leaves below the top and removes just that leaf from the order. |
| BinTree.MovesKeepTree | bintree/src/lib.rs:402-462 | No run of moves, possible or not, changes the tree. |
| BinTree.RunKeepsProper | bintree/src/lib.rs:242-462 | No run of moves and edits makes a proper tree improper. |
| BinTree.RunKeepsLeaves | bintree/src/lib.rs:242-462 | Over any run the leaves in the tree and those handed back are those there before and those inserted. |
| BinTree.SplitThenUnsplit | bintree/src/lib.rs:301-394 | Splitting, stepping to the new leaf and unsplitting gives back the cursor, the leaf and an empty node value. |
| TreeItems.StepsDown | bintree/src/lib.rs:402-462 | A step down works exactly on nodes, to the left without anything new before the position and to the right without anything new after it, and a step up leads back. |
| TreeItems.StepUp | bintree/src/lib.rs:402-462 | A step up works exactly below the top, and a step down undoes it. |
| TreeItems.AssignNodeIs | bintree/src/lib.rs:278-292 | Assigning works exactly on nodes and replaces the value there, and no other value, leaf or shape, in the order of leaves and node values. |
| TreeItems.SplitAddsTwo | bintree/src/lib.rs:324-394 | A split adds the leaf and an empty node value next to what is at the position and keeps everything else in order. |
| TreeItems.SplitsWork | bintree/src/lib.rs:324-394 | Splits of leaves work exactly on leaves, those of nodes exactly on nodes, and the first leaf can be assigned exactly to an empty tree. |
| TreeItems.UnsplitTakesTwo | bintree/src/lib.rs:301-322 | Unsplitting takes the leaf and the value of its parent, which are neighbours, out of the order and hands back both. |
| TreeItems.RunKeepsItems | bintree/src/lib.rs:242-462 | Over any run of moves and edits the leaves and node values in the tree and those replaced or handed back are together those there before and those put in. |
| Traversal.StepIsNext | bintree/src/lib.rs:472-496 | A step leads to the next position in preorder, after the last one to the top with the whole tree; only an empty position stops it earlier. |
| Traversal.PreorderNext | bintree/src/lib.rs:472-496 | The climbing loop is that step. |
| Traversal.WalkIsAll | bintree/src/lib.rs:472-496 | The preorder from the top lists every position of the tree, each once. |
| Traversal.VisitAll | bintree/src/lib.rs:472-496 | Iterating until a step fails visits every position of a proper tree once, in preorder, and ends at the top with the tree intact. |
| Traversal.WalkMeetsLeaves | bintree/src/lib.rs:193-199 | The leaves met are those of the tree from left to right, as many as it counts. |
| Traversal.GoToNthLeaf | bintree/src/lib.rs:533-544 | It stops on the n-th leaf at or after the position, or fails at the top; from the top it succeeds exactly if n is less than the number of leaves. |
| Traversal.PostNextMirrors | bintree/src/lib.rs:506-530 | A step of postorder_next is one of preorder_next in the mirrored tree. |
| Traversal.PostorderNext | bintree/src/lib.rs:506-530 | Its loop is that step. |
| Traversal.MirrorWalk | bintree/src/lib.rs:506-530 | The preorder of the mirrored tree is the postorder read backwards. |
| Traversal.VisitAllBack | bintree/src/lib.rs:506-530 | Iterating postorder_next visits a proper tree in the reverse of postorder and ends at the top. |
| Traversal.NotPostorder | bintree/src/lib.rs:498-505 | That is a postorder exactly if there is a single position. |

## Left out

- L3, the reordering of marks (`set_reorder_non_spacing_marks`): the model is the algorithm with it switched off, as it is by default.
- The tables of bidi classes and brackets and the searches in them: classes are inputs, and the bracket table is a parameter.
- IsolateMatching.SequencesAreBD13: assumes that no push is dropped, that no isolate overflows and that a paragraph separator stands only at the end; SourceBD13Exactly has the same assumptions. BD13 is not claimed for other paragraphs.
- BidiContexts.BidiContext.ReorderedRuns: does not say which wrong levels the runs of a later line carry.
- BidiContexts.BidiContext.ResolvePairedBrackets: after a bracket overflow it states what the code leaves; OverflowExactly says when that is N0.
- The capacity, growth and reuse of vectors, and tracing.
- Payloads: serialization, compression and the individual messages; a payload is a byte string with an identifier, and a payload that fails to decode is not modelled.
- Leb128.ReadUnsigned: the leb128 crate is not part of this model; decoding follows the DWARF 5 standard with an error for values beyond 64 bits, reported at the tenth byte.
- FrameReader.ReadBuffer.DropFront: the source copies with a primitive for regions that do not overlap; the model copies in ascending order, which is what is intended when they do.
- Allocation of the memory for a declared payload length, metrics and logging.
- Images in cells: the source moves them to a separate list with their coordinates; the model has only the rest of a cell.
- Writers that fail, and flushing when an encoder or decoder is dropped: a writer is an append-only byte sequence.
- `leaf_mut`, `node_mut` and `path_to_root`, which hand out references into the tree, and the textual forms of trees and cursors.
- Everything in the repository outside these four crates: colors, configuration, windows, bindings and build scripts.
