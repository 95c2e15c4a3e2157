# Verified cores of TinyMUX

TinyMUX carries a handful of small engines that everything else leans on. This project models five of them in Dafny and proves what each is for.

**The table compiler** (`utf/smutil.cpp`, its drivers `utf/pairs.cpp` and `utf/strings.cpp`, and the runtime loops that read its output). Byte strings with values are recorded in a trie; undefined transitions are optionally filled with a default; states and byte columns are merged, with undefined transitions as "don't cares"; rows are run-length encoded into tables that a separate loop decodes. Every pass has a simulation proof, and the passes compose: for every prefix-free list of entries, any default that lies in the array of accepting states and any list of merge passes, the runtime started in state 0 reaches "accepting start + value" for every recorded string, and the default for every other string that settles. The compiler is shown to fail only for keys that are not prefix-free, for a value, a default or a number of distinct key prefixes beyond its limits, or when there is nothing to tell apart; for pair tables the last is tied exactly to the lines. On top of it, pair tables compose exactly the listed pairs, and case tables map exactly the listed code points.

**The trigger matcher** (`ragel/trigger_match.c`). The Aho-Corasick automaton is built breadth-first and searched with a chain of dictionary links; globs are matched with one remembered star. Both are proved equal to their plain meaning, and a run of any add, remove, compile and search operations is proved to answer for the operations before it. What a pattern is meant to say is defined apart from the scanner, without its limit of 512 segments and with `$` as an anchor only at the end; a search agrees with that reading on every text if and only if a stated condition holds of every entry, for literals and for globs, and then a search with room to spare reports exactly the ids whose patterns can be found in the text piece by piece. Over every run the table is shown to hold one rule for each id, as last added.

**The colour trees** (`color/kdtree_lab.cpp`). Two k-d trees share one table of links. The pruned search is proved to find a nearest entry for every query, ties included, so the program's own validation loop can never count a mismatch.

**The transcoders** (`utf/ConvertUTF.cpp`, UTF-8 after sections 3 and 4 of RFC 3629, UTF-16 after section 2 of RFC 2781). Round trips, prefix-freeness, resumption after a full target or a source cut anywhere, and exactly which sources are accepted, strict or lenient.

**The softcode front end** (`parser/mux_parse.h`, `parser/stream_passes.cpp`). Substitutions and tokens are exactly the longest of two sets that are given apart from the scanners; tokens lose nothing; the parser builds the one tree that the grammar allows; the raw text of the tree is the input with its missing closers exactly when no dynamic call occurs; that text parses back to the same tree exactly when its last token was finished or nothing was missing; the refrozen and the streaming pass pipelines agree, and what a pass writes is stated unit by unit.

The modules, in the order in which they build on each other:

- compiler: `Bytes`, `Counting`, `Sequences`, `Automaton`, `Columns`, `Trie`, `StateMachines`, `Pruning`, `Passes`, `RunLength`, `RowEncoder`, `Tables`, `Compiler`; then `Utf`, `Transcoding`, `Acceptance`, `Pairs`, `CaseMaps`
- triggers: `Words`, `AhoCorasick`, `AhoBuild`, `AhoSearch`, `Glob`, `Patterns`, `Readings`, `Cutoffs`, `Triggers`, `TriggerRuns`, `Spellings`, `Registry`
- colours: `KdTree`, `Palette`
- softcode: `Substitutions`, `StreamPasses`, `PassRules`, `Tokens`, `TokenForms`, `Syntax`, `Grammar`, `Parsing`, `Reparsing`

Everything the sources update in place is a class or an in-place array here (`StateMachine`, `ResultTable`, `Machine`, `TriggerSet`, `Table`, `Parser`, the blob of the row encoder), each method proved against a function or relation on values. `dafny verify dfyconfig.toml` checks the whole project.

## Where code and comments part

The code is followed, and the difference is stated:

- `isLegalUTF8` has no lower bound on the second byte after 0xED and 0xF4. `Utf.OverlookedExists` gives such a sequence, and `Utf.LegalExactly` says exactly which sequences are accepted.
- A `$` anywhere in a trigger pattern becomes an end anchor behind the last segment, although a comment leaves it to a regex anywhere but at the end; and segments after the 512th are dropped without a word. `Readings.ReadsExactly` says exactly when the scanner finds the intended reading, and `Cutoffs.IdleExactly` exactly when dropped segments change no match.
- A repeated literal takes over the earlier id, an empty literal is never reported, and the case flag of the last literal is used for all.
- `TriggerRuns.LiteralsLost` gives an input for each of these (a displaced, an empty and a differently folded literal, a literal of 513 bytes, and "a$b"); `TriggerRuns.ExactIffSure` gives the exact condition.
- The header promises the offset where a match starts. The offset of a literal hit is the position of its last byte, and the offset of a glob hit is 0. `TriggerRuns.OffsetWrong` gives an input, the literal "ab" in the text "ab". `TriggerRuns.OffsetIsStart` says exactly when the offset is the start: the word has one byte; the glob is anchored, or begins with single-byte wildcards and then a star or nothing.
- With a single column left, the blob check fires on the last row and no table is written (`Tables.OutputTables`); with two or more it cannot. A single column is left if and only if no state tells two bytes apart (`Columns.SoleColumn`, `Compiler.Emit`), and `Compiler.LoneKeyFails` is an input.
- RecordString's range test lets the value 65536 through, one past the array of accepting states, and a default (the driver's `-d`) is not tested at all. The outcome `PastTheEnd` of a recording, and `WildPointer` of the whole compiler for such a value or for a default outside the array, stand for what the program then does, about which nothing is promised.
- The parser supplies missing closers, but the text that it stands for need not parse back: in "[%q" the substitution takes the bracket that was added (`Reparsing.ClosersCanBeLost`). `Reparsing.ReparseExactly` says exactly when it does.
- A dynamic call prints as an error text, so raw text is not the input for it (`Parsing.RawExactly`; `Parsing.DynamicCallOccurs` is an input).

## Model

| member | source | states |
|---|---|---|
| `Automaton.SimulationKeepsAnswers` | utf/smutil.cpp:365-580 | if every state is represented by a state that agrees with its defined transitions, or by the only accepting state it can lead to, then every accepted string keeps its value |
| `Automaton.SimulationPreserves` | utf/smutil.cpp:365-580 | such a merge that spares the start preserves every answer from the start |
| `Automaton.RunAppend` | utf/smutil.cpp:1200-1226 | the walk of TestString over u+v is the walk over u and then over v |
| `Automaton.SettledStays` | utf/smutil.cpp:1200-1226 | once a walk has settled, later bytes do not change it |
| `Trie.GrowAnswer` | utf/smutil.cpp:254-266 | filling one undefined transition of a trie changes the answer of the strings through it and of no other string |
| `Trie.GrowKeepsTree` | utf/smutil.cpp:254-266 | it stays a tree: each state is reached, by one string only |
| `Trie.PathFinished` | utf/smutil.cpp:280-287 | the last byte completes a recording: the string and its extensions give the value, its proper prefixes lead inside, all else is unchanged |
| `Trie.RecordsDescribes` | utf/smutil.cpp:235-303 | recording one more new string keeps the machine an exact description of all entries so far |
| `Trie.PrefixFreeGrows` | utf/smutil.cpp:235-303 | a string that is still undefined keeps the list prefix-free |
| `Trie.ConflictBreaksPrefixFree` | utf/smutil.cpp:267-272 | the "Already recorded" exits are taken only for lists that are not prefix-free |
| `Trie.TotalisedRun` | utf/smutil.cpp:644-661 | after the fill, a string that was undefined gives the default and every other answer is as before |
| `Trie.DescribedSize` | utf/smutil.cpp:254-263 | the number of states is the number of distinct proper prefixes of the keys |
| `Trie.FewPrefixes` | utf/smutil.cpp:254-263 | n keys of at most k bytes need at most 1 + k*n states |
| `Trie.OneColumnRuns` | utf/smutil.cpp:582-637 | a machine whose states tell no two bytes apart accepts with one value only |
| `Trie.OneColumnAnswer` | utf/smutil.cpp:582-637 | so a compilation ends with one column only if all entries, and the default where it applies, have the same value |
| `Pruning.RecordedLevels` | utf/smutil.cpp:235-303 | with one answer in all, the trie has one level for each byte of the longest key, every state leads on, and nothing else is accepted |
| `Pruning.LevelDown` | utf/smutil.cpp:365-479 | each pruning pass then takes off the deepest level |
| `Pruning.LevelZero` | utf/smutil.cpp:365-479 | and the last level is a single state with a single column |
| `StateMachines.StateMachine.constructor` | utf/smutil.cpp:196-216 | a fresh machine knows no string and has one state |
| `StateMachines.StateMachine.RecordString` | utf/smutil.cpp:235-303 | each exit with its condition: out of range, conflict with what is recorded, too many states, the one value past the end; otherwise the string is recorded and nothing else changes |
| `StateMachines.StateMachine.RecordPath` | utf/smutil.cpp:249-302 | the loop over the bytes, with the state count and the growth towards the string |
| `StateMachines.StateMachine.Advance` | utf/smutil.cpp:250-277 | one byte: follow, extend or stop, with the path made so far |
| `StateMachines.StateMachine.AcceptLast` | utf/smutil.cpp:279-302 | the last byte: recorded if undefined, a conflict otherwise |
| `StateMachines.RowsEqual` | utf/smutil.cpp:305-338 | true if and only if no byte has two different defined targets |
| `StateMachines.FillUndefined` | utf/smutil.cpp:511-523 | the filled row has every defined transition of both rows |
| `StateMachines.SoleAcceptingState` | utf/smutil.cpp:385-417 | an accepting state is returned if and only if the row leads to it and to nothing else |
| `StateMachines.StateMachine.MarkAcceptingStates` | utf/smutil.cpp:374-426 | exactly the non-start states that lead to one accepting state are marked, each with that state |
| `StateMachines.StateMachine.RedirectPointers` | utf/smutil.cpp:428-449 | every transition of a surviving state goes where its target was merged |
| `StateMachines.StateMachine.FreeMergedStates` | utf/smutil.cpp:451-474 | exactly the merged states are removed, the start stays first, no transition is left dangling |
| `StateMachines.StateMachine.MergeAcceptingStates` | utf/smutil.cpp:365-479 | answers are preserved, exactly the prunable states are gone, and a pass that removes nothing changes nothing |
| `StateMachines.StateMachine.AbsorbRow` | utf/smutil.cpp:506-523 | merging a compatible row keeps every state represented; the row that stays loses no transition and gains none but those of the row merged into it |
| `StateMachines.StateMachine.MarkDuplicateRows` | utf/smutil.cpp:490-528 | every old row is refined by the row it was merged into, and every transition of a row that stays comes from a row merged into it; no two of the rows that stay agree |
| `StateMachines.StateMachine.RemoveDuplicateRows` | utf/smutil.cpp:481-580 | rows are filled up until no two that stay agree, the others are gone, and every transition goes where its target was merged; answers are preserved, where the start led to a state it still does, and a pass that removes nothing changes nothing |
| `StateMachines.StateMachine.SetUndefinedStates` | utf/smutil.cpp:644-661 | every undefined transition, and no other, becomes the default; the pointer is wild if and only if the default lies outside the array of accepting states |
| `StateMachines.StateMachine.ColumnsEqual` | utf/smutil.cpp:340-363 | true if and only if no state has two different defined targets in the columns |
| `StateMachines.StateMachine.FillColumn` | utf/smutil.cpp:607-620 | column i takes column j's target where it had none; every other cell is unchanged |
| `StateMachines.StateMachine.DetectDuplicateColumns` | utf/smutil.cpp:582-637 | every defined transition of byte b is in the column that stands for b, itt[b] is that column's rank and below the column count, no two columns are left that could be merged, and one is left if and only if no state told two bytes apart |
| `Columns.MarkColumn` | utf/smutil.cpp:602-621 | re-assigning a column to a later representative loses no defined transition |
| `Columns.SoleColumn` | utf/smutil.cpp:582-637 | a single column is left if and only if no state told two bytes apart |
| `Columns.RankColumns` | utf/smutil.cpp:625-637 | the in-place renumbering replaces each representative by its rank |
| `Columns.ProjectAt` | utf/smutil.cpp:799-824 | a present column is found at its rank among the present columns |
| `StateMachines.StateMachine.NumberStates` | utf/smutil.cpp:663-670 | state i of the table has number i |
| `RunLength.DecodeInverts` | utf/smutil.cpp:991-1028 | decoding column t of the emitted phrases gives entry t, whatever follows |
| `RunLength.DecodeStable` | utf/smutil.cpp:789-1038 | rows written later do not disturb rows written before |
| `RunLength.PrintingAgrees` | utf/smutil.cpp:1152-1162 | the printed table, where a COPY header y is 256 - y, decodes to the same entries |
| `RunLength.RunFormat` | utf/unicode_tables_c_postamble.h:33-48 | a header up to 127 repeats the cell behind it so often, and decoding goes on behind that |
| `RunLength.CopyFormat` | utf/unicode_tables_c_postamble.h:49-64 | a header from 128 stands for the 256 - header cells behind it |
| `RunLength.CutExpands` | utf/smutil.cpp:704-742 | a request cut into phrases expands to the request |
| `RunLength.CutCost` | utf/smutil.cpp:704-742 | phrases cost at most two cells a column, and fewer for two columns or more |
| `RunLength.WritePhrase` | utf/smutil.cpp:708-738 | one phrase is appended in place, or refused exactly when it does not fit |
| `RunLength.EmitPhrase` | utf/smutil.cpp:704-742 | the blob grows by exactly the phrases of the request; the overflow exit exactly when they do not fit |
| `RowEncoder.CopyWithin` | utf/smutil.cpp:877-888 | the list to copy is no longer than the row so far |
| `RowEncoder.Feed` | utf/smutil.cpp:826-911 | one more column keeps "phrases so far, then what is pending" equal to the row so far, within two cells a column; while columns are left, neither the bound on the copy list nor the blob check fires |
| `RowEncoder.Flush` | utf/smutil.cpp:914-933 | the leftover completes the row, below two cells a column when it has two or more |
| `Tables.EncodeRow` | utf/smutil.cpp:789-934 | a row's phrases expand to its present columns; with two or more columns and room for two cells each it cannot fail |
| `Tables.EncodeRows` | utf/smutil.cpp:789-934 | the whole blob check fires exactly when there is one column |
| `Tables.OutputTables` | utf/smutil.cpp:744-1187 | tables are written exactly when the column count is not 1; every row decodes from its offset, and the declared widths hold every number |
| `Tables.SmallestWidth` | utf/smutil.cpp:750-768 | the declared width is the smallest of one, two and four bytes that holds the number |
| `Tables.EmittedTabulates` | utf/smutil.cpp:789-1187 | the entry of byte b is the number of the target b had before columns were merged |
| `Tables.TablesAnswer` | utf/unicode_tables_c_postamble.h:27-66 | the runtime walk over the tables accepts what the machine accepts, with the same value |
| `Tables.DecodeAt` | utf/unicode_tables_c_postamble.h:33-64 | each turn of the phrase loop finds the entry or the place to go on, inside the table |
| `Tables.EntryFits` | utf/unicode_tables_c_postamble.h:80-98 | an entry fits the width declared for the table's cells, so an 8- or 16-bit state variable holds it |
| `Tables.NextState` | utf/unicode_tables_c_postamble.h:30-65 | the phrase loop in its own 8- and 16-bit variables computes the entry |
| `Tables.RunToAcceptance` | utf/unicode_tables_c_postamble.h:27-66 | the do/while loop reaches the state of the table walk |
| `Tables.FeedBytes` | mux/lib/utf8_normalize.cpp:262-343 | the bounded loop does too, and stops when the bytes end |
| `Tables.TableRunAppend` | mux/lib/utf8_normalize.cpp:262-343 | feeding two runs of bytes in turn is feeding their concatenation |
| `Passes.Optimise` | utf/pairs.cpp:233-243 | any sequence of merge passes preserves every answer and adds no state, and each step has its effect on the machine before it |
| `Passes.RunPass` | utf/pairs.cpp:233-243 | one pass preserves every answer; pruning removes exactly the states with a certain outcome, merging keeps the start's states and leaves a lone state alone |
| `Passes.PathStays` | utf/smutil.cpp:365-479 | a pruning pass keeps the path to any state that leads to another state |
| `Passes.LevelsLast` | utf/pairs.cpp:233-243 | with as many pruning passes in front as a machine with one answer has levels, one column is left |
| `Passes.DeepLast` | utf/pairs.cpp:233-243 | with pruning first, a path longer than the pruning passes reach beside a byte on which the start accepts leaves more than one column |
| `Compiler.RecordNext` | utf/pairs.cpp:164-183 | recording the next entry keeps the exact description, or fails for a stated reason |
| `Compiler.RecordAll` | utf/pairs.cpp:164-183 | a whole list is known exactly, or fails for a stated reason |
| `Compiler.Emit` | utf/pairs.cpp:245-253 | column merging, numbering and output keep every entry's meaning; no table if and only if no state tells two bytes apart |
| `Compiler.Finish` | utf/pairs.cpp:230-253 | everything after the recording: the tables recognise the entries; no table if and only if the machine after the passes has one column; that needs one answer, and follows from it when the keys are within reach of the pruning passes; with a default, a byte that starts no key and pruning before merging it also needs the keys within reach |
| `Compiler.PassesDecide` | utf/pairs.cpp:230-243 | the same three conditions about the machines before and after any passes |
| `Compiler.CompiledRecognises` | utf/smutil.cpp:235-1187 | recording, filling, merging and emitting compose: recorded strings give their values, other settled strings the default |
| `Compiler.Compile` | utf/smutil.cpp:235-1187 | the end-to-end theorem, with the condition of every failure; the lack of a table is tied exactly to the machine after the passes, and, for keys with at most one byte more than there are pruning passes in front (four bytes for the drivers), exactly to the entries having one answer; with a default, a byte that starts no key and pruning before merging it is tied to the entries whatever the keys: one answer, and every key within reach |
| `Compiler.LoneKeyFails` | utf/smutil.cpp:704-742 | a single key of one byte without a default ends without a table, whatever the passes |
| `Utf.EncodeReads` | utf/ConvertUTF.cpp:406-517 | an encoded code point announces its own length and combines back to itself, whatever follows, and a scalar value passes isLegalUTF8 |
| `Utf.EncodeForm` | utf/ConvertUTF.cpp:406-455 | the length depends on the range, the lead and continuation bytes have their ranges, and the payloads add up to the code point |
| `Utf.Encode16Form` | utf/ConvertUTF.cpp:325-400 | a code point above 0xFFFF is a high and a low surrogate that share its twenty bits |
| `Utf.EncodePrefixFree` | utf/ConvertUTF.cpp:406-455 | encodings are injective and none is a proper prefix of another |
| `Utf.OverlookedExists` | utf/ConvertUTF.cpp:292-315 | a sequence that is accepted and is no encoding |
| `Utf.LegalExactly` | utf/ConvertUTF.cpp:292-315 | a sequence of its announced length is accepted if and only if it is the encoding of a scalar value or one of the overlooked family |
| `Utf.LegalIsScalar` | utf/ConvertUTF.cpp:292-315 | an accepted sequence, overlooked or not, never combines to a surrogate or to a value above 0x10FFFF |
| `Utf.CombineInverts` | utf/ConvertUTF.cpp:292-315 | an accepted sequence outside that family is the encoding of what it combines to |
| `Transcoding.NextTakes` | utf/ConvertUTF.cpp:211-517 | a step consumes at least one unit and no more than there are, and stops only for a cut-off or illegal source |
| `Transcoding.NextLocal` | utf/ConvertUTF.cpp:211-517 | what a step does, unless the source ran out, does not depend on what follows |
| `Transcoding.ConvertFits` | utf/ConvertUTF.cpp:211-517 | a call never writes beyond its room, and leaves a tail of the source |
| `Transcoding.ResumeTarget` | utf/ConvertUTF.cpp:211-517 | going on after a full target gives the same total output, rest and status as one call with the whole room |
| `Transcoding.ResumeSource` | utf/ConvertUTF.cpp:211-517 | going on after a source cut mid-character, with the leftover in front, gives the same as one call |
| `Transcoding.StreamIsConvert` | utf/ConvertUTF.cpp:211-517 | any cutting of the source into chunks gives the output, the status and the unread rest of the whole |
| `Transcoding.ConvertsAll` | utf/ConvertUTF.cpp:211-517 | every text of scalar values converts completely, to exactly its other form |
| `Transcoding.RoundTrips` | utf/ConvertUTF.cpp:211-517 | UTF-32 to UTF-8 to UTF-32 and UTF-8 to UTF-16 to UTF-8 give the text back, strict or lenient |
| `Transcoding.Transcode` | utf/ConvertUTF.cpp:211-517 | the conversion loop computes that function: status, unread source and written target |
| `Acceptance.AcceptedIsNext` | utf/ConvertUTF.cpp:211-517 | an accepted character at the front is taken as a whole, and its value is written in the target form |
| `Acceptance.StopsWhenStuck` | utf/ConvertUTF.cpp:211-517 | a converter stops exactly where no character is accepted: exhausted if the first unit announces more units than there are, illegal otherwise |
| `Acceptance.ConvertExactly` | utf/ConvertUTF.cpp:211-517 | a conversion runs through if and only if the source is a sequence of accepted characters, for every form, strict or lenient; otherwise it has written exactly what is in front of the first bad one, and the rest starts there |
| `Acceptance.ReadsConverts` | utf/ConvertUTF.cpp:211-517 | a source is read in one way only |
| `Acceptance.RoomExactly` | utf/ConvertUTF.cpp:211-517 | a limited target changes nothing if everything fits; otherwise the call backs up to the first character that does not |
| `Pairs.PairToUTF8Is` | utf/pairs.cpp:106-134 | two lenient conversions give the two encodings, or nothing for an illegal code point |
| `Pairs.KeysComparable` | utf/pairs.cpp:106-134 | if one pair's bytes are a prefix of another's, the pairs are equal |
| `Pairs.ResultTable.ResultIndex` | utf/pairs.cpp:34-53 | the 1-based index selects the code point; a known one keeps its index, a new one is appended, failure exactly when full |
| `Pairs.PairsPrefixFree` | utf/pairs.cpp:156-183 | pairs without repetition never take an error exit of RecordString |
| `Pairs.LoadPairs` | utf/pairs.cpp:156-192 | one entry for each convertible line, with the index of its result; failure only for more than 2000 distinct results |
| `Pairs.RecognisesIsExact` | utf/pairs.cpp:218-258 | recognising the entries is exactness for every pair of code points |
| `Pairs.BuildPairTable` | utf/pairs.cpp:218-258 | listed pairs give their result's index, every other pair settles on the default; each failure has its condition; a default outside the array gives no table, and otherwise the table is missing for lack of columns if and only if no pair is recorded, or all have the result that the default stands for, each in at most four bytes |
| `Pairs.OneResultExactly` | utf/pairs.cpp:218-258 | what the compiler calls one answer within reach is a single result, that of the default, in keys of at most four bytes |
| `Pairs.ComposeViaTable` | mux/lib/utf8_normalize.cpp:259-355 | the two feeding loops and the result lookup |
| `Pairs.ComposesAsListed` | mux/lib/utf8_normalize.cpp:259-355 | with default 0, composition is exactly the listed relation, and the result table is never read out of bounds |
| `CaseMaps.XorInvolution` | utf/strings.cpp:99-107 | exclusive or undoes itself, bit by bit |
| `CaseMaps.XorBitwise` | utf/strings.cpp:99-107 | each bit of the result is set if and only if the bits of the two numbers differ |
| `CaseMaps.XorSelf` | utf/strings.cpp:99-107 | with zero a number stays, with itself it becomes zero |
| `CaseMaps.XorOfCases` | utf/strings.cpp:73-108 | the two cases of the letter A differ by 0x20 |
| `CaseMaps.XorBytesUndoes` | utf/strings.cpp:73-108 | XORing the source with the XOR of source and image gives the image |
| `CaseMaps.LenientConverts` | utf/strings.cpp:166-199 | with four bytes of room a code point, lenient conversion succeeds exactly on legal code points and writes their encodings |
| `CaseMaps.AddOutput` | utf/strings.cpp:199-275 | afterwards the line's literal or XOR is in its table, nothing is removed or moved, and at most one row is added |
| `CaseMaps.ChooseState` | utf/strings.cpp:408-518 | the chosen accepting state makes the runtime rule reproduce the mapped bytes |
| `CaseMaps.BuildOutputTable` | utf/strings.cpp:155-286 | every convertible line is covered; failure only for 40000 lines or more |
| `CaseMaps.LoadStrings` | utf/strings.cpp:408-518 | one entry for each convertible line, in order, with such a state |
| `CaseMaps.MapsPrefixFree` | utf/strings.cpp:408-518 | distinct code points never take an error exit of RecordString |
| `CaseMaps.MappedGives` | utf/strings.cpp:539-600 | a mapped code point gives its mapped text, whatever follows it |
| `CaseMaps.UnmappedGives` | utf/strings.cpp:539-600 | any other code point stands for itself |
| `CaseMaps.BuildCaseTable` | utf/strings.cpp:539-600 | the table is exact for every code point; each failure has its condition, and without a convertible line there is no table |
| `CaseMaps.MapCodePoint` | mux/lib/color_ops.c:2383-2402 | looking up and applying a description yields the mapped text, or the source for an unmapped code point |
| `Words.LongestStep` | ragel/trigger_match.c:293-308 | the longest suffix in a prefix-closed set after one more byte comes from the longest suffix before it |
| `Words.LastWordFromLongest` | ragel/trigger_match.c:300-302 | the longest word at the end of a text is the longest word at the end of its longest trie suffix |
| `AhoCorasick.Machine.Insert` | ragel/trigger_match.c:256-269 | the folded literal joins the dictionary with the id, replacing an earlier id; the trie invariant is kept |
| `AhoCorasick.FoldByteExactly` | ragel/trigger_match.c:21-24 | folded bytes are equal if and only if the bytes are the same or the two cases of one letter; where one side only is folded, the other must not be an upper-case letter |
| `AhoBuild.FailFollows` | ragel/trigger_match.c:295-303 | the failure state of a child is the failure state of its parent after the byte |
| `AhoBuild.LinkFromFailure` | ragel/trigger_match.c:300-302 | the rule for dict_link yields the nearest proper suffix that is a word |
| `AhoBuild.FailureKnown` | ragel/trigger_match.c:295-306 | breadth-first order: the failure state's row is complete when it is read |
| `AhoBuild.QueueBound` | ragel/trigger_match.c:277-303 | the queue never holds more than the states, so it fits its allocation |
| `AhoBuild.ExpandRoot` | ragel/trigger_match.c:280-290 | the root's row is complete and its children are queued |
| `AhoBuild.Expand` | ragel/trigger_match.c:293-308 | one state's row is completed, its children linked and queued |
| `AhoBuild.Build` | ragel/trigger_match.c:275-311 | each non-root state is queued exactly once; go is the longest trie suffix, fail the longest proper one, dict_link the nearest word among the proper suffixes |
| `AhoSearch.ChainStarts` | ragel/trigger_match.c:329-335 | the words ending at a position are the words ending the state's string |
| `AhoSearch.ChainFollows` | ragel/trigger_match.c:335-348 | following dict_link skips only the state's own word, and gets shorter |
| `AhoSearch.ReportOne` | ragel/trigger_match.c:336-346 | the bitmask holds exactly the reported ids, and a new report is the earliest end of its id |
| `AhoSearch.StateReads` | ragel/trigger_match.c:330-331 | the state stays at the longest suffix of what was read |
| `AhoSearch.WalkChain` | ragel/trigger_match.c:334-348 | every word ending here is reported once, or the room ran out |
| `AhoSearch.Search` | ragel/trigger_match.c:318-352 | with room to spare an id is reported, once, if and only if one of its words occurs, with the offset of its earliest end; with less room nothing that ends before the last hit is passed over |
| `Glob.LastStarSuffices` | ragel/trigger_match.c:410-416 | forgetting all stars but the last loses no match |
| `Glob.GlobMatchAt` | ragel/trigger_match.c:370-420 | terminates, and returns true if and only if the segments match some prefix of the text |
| `Glob.StarInFront` | ragel/trigger_match.c:435-440 | matching from some position is matching with a star in front |
| `Glob.GlobSearch` | ragel/trigger_match.c:426-443 | anchored: a match at 0; otherwise the match of the pattern with a star in front |
| `Patterns.ParsePattern` | ragel/trigger_match.c:63-202 | the scanner, transition by transition |
| `Patterns.ParseWell` | ragel/trigger_match.c:63-202 | at most 512 segments, a start anchor only in front, and nothing but literals unless a glob byte occurs |
| `Patterns.EscapeRoundTrip` | ragel/trigger_match.c:63-202 | any text of up to 512 bytes, each byte escaped, parses to exactly that literal |
| `Spellings.AtomTable` | ragel/trigger_match.c:104-145 | which characters are wildcards, anchors, regex characters and ordinary |
| `Spellings.OrdinaryParse` | ragel/trigger_match.c:63-202 | a pattern of ordinary characters is a literal, cut off after 512 of them |
| `Spellings.RegexByteTells` | ragel/trigger_match.c:104-145 | one of `( ) + [ ] {` and `}` or a vertical bar leaves the pattern to a regex unless it is escaped |
| `Spellings.OnlyRegexBytes` | ragel/trigger_match.c:104-145 | nothing else does but a `^` |
| `Patterns.LiteralMeans` | ragel/trigger_match.c:63-202 | a literal pattern matches if and only if the folded literal occurs in the folded text |
| `Triggers.KeepsIsDict` | ragel/trigger_match.c:585-596 | the last literal with a word gives the word its id |
| `Triggers.DictIsKept` | ragel/trigger_match.c:585-596 | every word of the automaton belongs to such a literal |
| `Triggers.AcHitFires` | ragel/trigger_match.c:642-648 | every hit of the automaton is a literal that fires, at its earliest end |
| `Triggers.LiteralIsHit` | ragel/trigger_match.c:642-648 | every literal that fires is a hit of the automaton |
| `Triggers.TriggerSet.Add` | ragel/trigger_match.c:510-535 | replaces the active entry with the id, or appends; fails and changes nothing for a bad id or a full table |
| `Triggers.TriggerSet.Remove` | ragel/trigger_match.c:537-548 | deactivates the active entry with the id, or fails and changes nothing (`Registry.RemoveEnds` says so without naming the search for it) |
| `Triggers.TriggerSet.CompileLiteral` | ragel/trigger_match.c:585-596 | the literal joins the automaton's dictionary; its case flag and the count are taken over |
| `Triggers.TriggerSet.CompileEntry` | ragel/trigger_match.c:564-623 | one entry is routed to the automaton, to the globs or nowhere |
| `Triggers.TriggerSet.Compile` | ragel/trigger_match.c:550-632 | the compiled parts belong to the entries as they are |
| `Triggers.TriggerSet.Search` | ragel/trigger_match.c:634-661 | nothing unless compiled; each hit an entry that fires, no id twice, offsets as stated; with room to spare no entry that fires is missing |
| `Readings.PlainParse` | ragel/trigger_match.c:63-202 | for a literal or a glob the scanner finds the intended segments, cut off after 512 |
| `Readings.RegexExactly` | ragel/trigger_match.c:104-145 | the scanner asks for a regex if and only if a regex byte occurs, or a `^` behind something other than a `$` |
| `Readings.ReadsExactly` | ragel/trigger_match.c:63-202 | the scanner gives the intended reading if and only if it asks for a regex, or no `$` stands before the end and there are at most 512 segments |
| `Cutoffs.IdleSame` | ragel/trigger_match.c:370-443 | dropped stars, and a dropped end anchor that a star can reach, change no match |
| `Cutoffs.NotIdleTells` | ragel/trigger_match.c:370-443 | any other dropped segments are told by some text |
| `Cutoffs.FrontExactly` | ragel/trigger_match.c:426-443 | a pattern matches at the front of every text in which it matches anywhere if and only if it begins with single-byte wildcards and then a star or nothing |
| `Cutoffs.IdleExactly` | ragel/trigger_match.c:370-443 | dropping trailing segments changes no match if and only if they are idle |
| `TriggerRuns.RoutedByParts` | ragel/trigger_match.c:577-597 | which entries go to the automaton and which to the globs, told from the pattern alone |
| `TriggerRuns.LiteralExactly` | ragel/trigger_match.c:550-661 | a literal is reported as its pattern is meant if and only if it is nonempty, of at most 512 bytes, not displaced, and has the automaton's case flag or no letter |
| `TriggerRuns.GlobExactly` | ragel/trigger_match.c:550-661 | a glob without a `$` before its end is, if and only if its segments fit or those dropped are idle |
| `TriggerRuns.StrayIsWrong` | ragel/trigger_match.c:106-112 | a glob with a `$` before its end always matches some text, although it should be left to a regex |
| `TriggerRuns.ExactIffSure` | ragel/trigger_match.c:550-661 | search agrees with what the patterns are meant to say, on every text, if and only if every entry meets these conditions or is left to a regex |
| `TriggerRuns.LiteralsLost` | ragel/trigger_match.c:550-661 | inputs on which a displaced, an empty and a differently folded literal go unreported, and on which a literal of 513 bytes and "a$b" are reported wrongly |
| `TriggerRuns.OffsetIsStart` | ragel/trigger_match.h:33-37 | the reported offset is where the match starts if and only if, for a literal, its word has one byte; and, for a glob and on every text it matches, if and only if it is anchored, or begins with single-byte wildcards and then a star or nothing |
| `TriggerRuns.LiteralOffset` | ragel/trigger_match.c:329-348 | the half about literals, for each hit |
| `TriggerRuns.GlobOffset` | ragel/trigger_match.c:426-443 | the half about globs, over all texts |
| `TriggerRuns.OffsetWrong` | ragel/trigger_match.h:33-37 | the literal "ab" in the text "ab" starts at 0 and is reported at 1 |
| `TriggerRuns.SearchIsIdeal` | ragel/trigger_match.c:634-661 | in a compiled state whose entries all meet the conditions, a search with room to spare reports an id if and only if an entry with that id matches as it is meant |
| `Spellings.IdealExactly` | ragel/trigger_match.c:63-443 | what an entry is meant to report: an active literal or glob, and some stretch of the text can be cut into pieces, one for each part of the pattern; told from the bytes alone |
| `Spellings.LiteralFires` | ragel/trigger_match.c:318-352 | a literal is reported if and only if it is nonempty, not displaced, and some slice of the text equals it byte by byte, up to the case of letters where the flags fold |
| `Spellings.SameKey` | ragel/trigger_match.c:256-269 | two literals displace each other if and only if they are alike byte by byte in this sense |
| `Spellings.LastFlag` | ragel/trigger_match.c:585-596 | the text is folded if the last literal among the entries ignores case |
| `TriggerRuns.RunsStayValid` | ragel/trigger_match.c:510-548 | over every run, active ids are distinct and the table stays within its size |
| `TriggerRuns.CompiledExactly` | ragel/trigger_match.c:510-661 | over every run, the set is compiled if and only if a compile ran after the last change |
| `TriggerRuns.Replay` | ragel/trigger_match.c:510-661 | over every run on a fresh set, each search answers for the operations before it |
| `Registry.RunShowsBook` | ragel/trigger_match.c:510-548 | over every run the active entries are exactly the rules of a book that each add writes, each remove strikes out, and that uses up at most 256 slots |
| `Registry.AddWrites` | ragel/trigger_match.c:510-535 | an accepted add writes one slot, that of the id or a new one behind the others, with the pattern and the flag; every other slot is unchanged |
| `Registry.RemoveEnds` | ragel/trigger_match.c:537-548 | a remove deactivates the active entry with the id, and nothing else changes |
| `Registry.AltersExactly` | ragel/trigger_match.c:510-548 | which operations are accepted, told from the book |
| `Registry.OnlyRules` | ragel/trigger_match.c:634-661 | after any run a search reports only ids that have a rule |
| `Registry.RunIsIdeal` | ragel/trigger_match.c:510-661 | after any run that ended compiled, with entries that all meet the conditions, a search with room to spare reports an id if and only if it has a rule and the rule's pattern can be found in the text piece by piece |
| `KdTree.BeyondPlane` | color/kdtree_lab.cpp:626-634 | an entry beyond the splitting plane is at least as far as the plane, ties included |
| `KdTree.Pruned` | color/kdtree_lab.cpp:630-634 | a pruned side holds nothing nearer than the best so far |
| `KdTree.VisitNearest` | color/kdtree_lab.cpp:606-697 | the pruned search returns the nearest of the best so far and everything in an ordered tree |
| `KdTree.VisitFirst` | color/kdtree_lab.cpp:606-697 | pruning changes no answer: among entries equally near the search keeps the first in the order in which an unpruned search would meet them |
| `KdTree.LevelsIsLog` | color/kdtree_lab.cpp:568-598 | the height bound is floor(log2 n) + 1 |
| `KdTree.JoinIndexes` | color/kdtree_lab.cpp:590-593 | splitting a sorted list at its median gives an ordered tree of the same entries, of that height |
| `KdTree.HoldsFramed` | color/kdtree_lab.cpp:592-593 | a tree in the link table does not depend on the links of other entries |
| `Palette.TreeFinds` | color/kdtree_lab.cpp:606-697 | a tree over the flagged entries answers with a nearest flagged entry, or -1 when there is none |
| `Palette.Table.NearestBrute` | color/kdtree_lab.cpp:518-535 | the first of the nearest flagged entries, or -1 |
| `Palette.NearestBySquares` | color/kdtree_lab.cpp:135-141 | nearest means the least sum of squared coordinate differences |
| `Palette.FirstBySquares` | color/kdtree_lab.cpp:518-535 | the same for the first of the nearest |
| `Palette.DiffByAxes` | color/kdtree_lab.cpp:135-141 | the measure treats the axes alike, adds over them, and is the square of the difference on each |
| `Palette.Table.BuildTree` | color/kdtree_lab.cpp:568-598 | an ordered tree holding each given entry exactly once, of height exactly floor(log2 n) + 1; only the given entries' links are written |
| `Palette.Table.SearchL` | color/kdtree_lab.cpp:606-635 | the search on L* computes the visit of the tree in the links |
| `Palette.Table.SearchA` | color/kdtree_lab.cpp:637-666 | the same on a* |
| `Palette.Table.SearchB` | color/kdtree_lab.cpp:668-697 | the same on b* |
| `Palette.Table.ValidateTree` | color/kdtree_lab.cpp:702-742 | for every list of queries the mismatch count is 0 |
| `Palette.Table.BuildFor` | color/kdtree_lab.cpp:933-957 | building one tree leaves the other, and so every answer from it, unchanged |
| `Palette.Table.Prepare` | color/kdtree_lab.cpp:933-985 | both trees stand; every color16 is a nearest flagged entry, every color8 the first nearest of eight |
| `Substitutions.GatherPercent` | parser/mux_parse.h:121-210 | the gathered text is the longest substitution of the profile that starts at the percent sign |
| `Substitutions.UnitIsLongest` | parser/stream_passes.cpp:89-157 | the end found by the branches is that of the longest substitution, for both gatherers, every text and both profiles |
| `Substitutions.GatherAngle` | parser/mux_parse.h:110-119 | the text from `<` through the first `>`, or to the end |
| `StreamPasses.RunStreamPass` | parser/stream_passes.cpp:219-244 | the loop computes the pass whose rules `PassRules` states |
| `StreamPasses.FreezeUnits` | parser/stream_passes.cpp:159-189 | the loop computes the units that `PassRules.FreezeExactly` describes |
| `StreamPasses.RunFrozenPass` | parser/stream_passes.cpp:246-267 | the loop concatenates what the units become |
| `StreamPasses.FreezeLossless` | parser/stream_passes.cpp:159-189 | the texts of the units concatenate to the input |
| `StreamPasses.FreezeAgrees` | parser/stream_passes.cpp:159-267 | evaluating the units is the streaming pass, for every text, profile and mode |
| `PassRules.EvalCodes` | parser/stream_passes.cpp:191-217 | in front of any text %%, %b, %t and %r, in either case, give a percent sign, a blank, a tab and a line end, and Penn keeps a percent sign and a blank; the rest is rewritten on its own |
| `PassRules.EvalOthers` | parser/stream_passes.cpp:191-217 | any other substitution gives the character that selects it |
| `PassRules.KeptOrEscaped` | parser/stream_passes.cpp:219-244 | without evaluation substitutions stay; a backslash is dropped and what it escapes stays; plain characters stay |
| `PassRules.SomeLead` | parser/stream_passes.cpp:219-244 | every nonempty text starts with such a unit, so these rules say what a pass makes of any text |
| `PassRules.PlainStays` | parser/stream_passes.cpp:219-244 | a text without percent sign and backslash is left as it is |
| `PassRules.FreezeExactly` | parser/stream_passes.cpp:159-189 | the units are exactly the escapes, longest substitutions and maximal plain runs from left to right |
| `StreamPasses.StreamModel` | parser/stream_passes.cpp:432-442 | the text after each pass of any pipeline |
| `StreamPasses.RefrozenModel` | parser/stream_passes.cpp:462-485 | the very same texts |
| `StreamPasses.PassShrinks` | parser/stream_passes.cpp:191-244 | no pass lengthens the text; one that changes it makes it lighter, and shorter if it does not evaluate |
| `StreamPasses.PipelineShrinks` | parser/stream_passes.cpp:432-442 | no pipeline lengthens the text |
| `StreamPasses.RepeatSettles` | parser/stream_passes.cpp:191-244 | repeated noeval passes are at a fixed point after as many passes as the text has characters, repeated eval passes after its weight |
| `StreamPasses.NoevalDrops` | parser/stream_passes.cpp:219-244 | a noeval pass drops exactly one character for each escape, and leaves a text alone if and only if nothing in it is escaped |
| `Tokens.Tokenize` | parser/mux_parse.h:212-281 | the loop that looks back at the last literal computes the tokens defined by looking ahead, which `TokenForms.LexExactly` describes |
| `Tokens.LexLossless` | parser/mux_parse.h:212-281 | token texts concatenate to the input, for every input and profile |
| `Tokens.NamesBeforeParens` | parser/mux_parse.h:231-236 | a literal is a function name if and only if a parenthesis follows it |
| `Tokens.TokenizedWellLexed` | parser/mux_parse.h:212-281 | every token's text fits its kind, and the only end token is the last |
| `TokenForms.TokenIsLongest` | parser/mux_parse.h:212-281 | the tokenizer takes the longest token at the front, of a set of texts that is given by itself |
| `TokenForms.LexExactly` | parser/mux_parse.h:212-281 | a list is the token list of a text if and only if each token is the longest in turn and has the kind of its text |
| `Syntax.RawTells` | parser/mux_parse.h:332-371 | raw text is the concatenation of a legal tree's tokens if and only if it holds no dynamic call |
| `Syntax.DynPrinted` | parser/mux_parse.h:455-461 | a legal tree holds a dynamic call if and only if a substitution stands right before a parenthesis in its tokens |
| `Grammar.Unambiguous` | parser/mux_parse.h:404-537 | at most one legal tree has given tokens |
| `Parsing.Parser.ParseSequence` | parser/mux_parse.h:423-440 | reads up to the end or a stopper of the innermost group; the tree is legal and its tokens are those read, plus the closers missing at the end |
| `Parsing.Parser.ParseOne` | parser/mux_parse.h:442-484 | the same for a single item |
| `Parsing.Parser.ParseFuncCall` | parser/mux_parse.h:486-496 | the same for a call by name |
| `Parsing.Parser.ParseSubst` | parser/mux_parse.h:455-504 | the same for a substitution or a dynamic call |
| `Parsing.Parser.ParseArgList` | parser/mux_parse.h:506-516 | the same for the arguments through the closing parenthesis |
| `Parsing.Parser.ParseFirstArg` | parser/mux_parse.h:507-508 | the same for the first argument, right behind the parenthesis |
| `Parsing.Parser.ParseNextArg` | parser/mux_parse.h:509-513 | the same for one more argument, a comma in front of it |
| `Parsing.Parser.ParseContents` | parser/mux_parse.h:518-536 | the opening bracket or brace and the contents behind it |
| `Parsing.Parser.ParseEvalBracket` | parser/mux_parse.h:518-526 | the same for brackets |
| `Parsing.Parser.ParseBraceGroup` | parser/mux_parse.h:528-536 | the same for braces |
| `Parsing.RawExactly` | parser/mux_parse.h:332-371 | raw text equals the input followed by the missing closers, innermost first, if and only if the tree holds no dynamic call |
| `Parsing.DynamicCallOccurs` | parser/mux_parse.h:455-461 | "%0(a)" holds a dynamic call |
| `Parsing.Parse` | parser/mux_parse.h:212-537 | tokenizing and parsing any text: a legal tree whose tokens are the text's and the closers that an independent scanner with a stack finds missing |
| `Reparsing.LexMore` | parser/mux_parse.h:212-281 | behind a finished token a closer is a token of its own and changes no other |
| `Reparsing.LexSwallows` | parser/mux_parse.h:121-281 | an unfinished last token (a lone backslash, or a substitution without its name or its closing angle) takes the closer in |
| `Reparsing.CloseAll` | parser/mux_parse.h:404-537 | behind a finished token the missing closers, innermost first, are tokens of their own and leave nothing missing |
| `Reparsing.ReparseExactly` | parser/mux_parse.h:212-537 | parsing the input with its missing closers gives the same tree, with nothing missing, if and only if nothing was missing or the last token is finished |
| `Reparsing.ClosersCanBeLost` | parser/mux_parse.h:121-210 | in "[%q" the substitution takes the added bracket, and the group stays open |

## Left out

- File reading, line and field parsing, the order check on input lines, printing of C source text, command lines: plumbing around the cores.
- Raw memory: states are handles in a map, accepting states a constructor of their own. What the program does after making a pointer outside the array of accepting states and reading the `merged` field through a pointer into that array are not modelled.
- ValidateStatePointer (compiled out), the size reports on standard error between passes, and TestTable, whose checks always pass by the theorems here.
- RowsEqual's shortcut for the same pointer: the passes only compare different states.
- Tables.NextState: requires tables whose offsets are declared at most 16 bits wide (`sizeOfOffset <= 2`), because the runtime's offset variable has 16 bits and would wrap around in a larger table.
- Tables.RunToAcceptance: the same limit, as it calls NextState.
- Tables.FeedBytes: the same limit, as it calls NextState.
- Pairs.ComposeViaTable: the same limit, as it calls FeedBytes.
- CaseMaps.MapCodePoint: the same limit, as it calls RunToAcceptance.
- CaseMaps.BuildCaseTable: only the build with the default flag and default state 0, the one the runtime assumes, is modelled, and the point and reference counts of output rows are not.
- Compiler.Compile: for keys beyond the reach of the pruning passes, and without a default, without a byte that starts no key or with merging before pruning, the condition on the entries for the lack of a table is only necessary; the exact one is on the machine after the passes, since it depends on how far row merging happens to go. The pair driver always has the default and such a byte.
- Compiler.Finish: the same.
- Transcoding.Transcode: the target is a sequence with a limit on its length rather than a buffer behind a moving pointer; the direct UTF-32/UTF-16 converters would add only easier members.
- Utf: shifts, masks and offset tables are written as the arithmetic they compute.
- Growth of C arrays by doubling and the freeing of memory in the trigger matcher; `trigger_needs_regex`; null arguments.
- KdTree.Sort: an insertion sort stands for qsort; only that the result is a sorted permutation is used.
- KdTree: coordinates are unbounded integers, the floating-point conversion to L*a*b* and the CIEDE2000 comparison are taken as given or left out. The older color/kdtree.cpp is not part of this model.
- Substitutions.GatherPercent: stands for gather_pct and for gather_percent_unit, which follow the same rules; both MUX profiles gather alike. Characters are those of the C locale, and the text of a C string ends before its NUL.
- Syntax.DynCall: keeps the text of the substitution that is the first child instead of the child node.
- The frozen and boundary models of the stream tool, the evaluator in parser/eval.cpp (it re-tokenizes its own output, so it is not total), the client input editor, mux/convert, memory pools and the generated tables themselves.
