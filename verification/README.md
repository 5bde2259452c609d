# Breakpad symbol handling and SmartLink, modelled and proved

This project models the parts of a vendored Breakpad tree, and of one small
broadcast encoding beside it, whose correctness is not obvious from reading them,
and proves what they promise.

| modules | what they model |
|---|---|
| `Machine` | 64-bit wrapping arithmetic |
| `RangeForest`, `ContainedRangeMaps` | the hierarchical range map: objects that own their children, the tree they form, and the flat set of ranges that tree stands for |
| `LineTables`, `SweepSteps`, `SweepWarnings`, `LineSweep`, `DwarfUnits` | the one-pass assignment of source lines to functions, against the specification "all intersections", with its reports, and where its input comes from |
| `Texts`, `CfiRules`, `RangeMaps`, `CfiRecords`, `CfiTables`, `CfiMeaning`, `CfiDwarf` | call frame information from DWARF events through stack frame entries, printed STACK CFI records and parsed tables to the rules found at an address |
| `PostfixEvaluators`, `CfiCallers`, `CfiUnwinding` | the postfix evaluator, the registers of the caller, and call frame information end to end by registers |
| `Bits`, `UtfCodec`, `Conversions`, `UtfSteps`, `UtfTexts`, `UtfSplits`, `UtfOutcomes`, `UtfConverters` | the six converters between UTF-8, UTF-16 and UTF-32, with their bit operations |
| `StabsEntries`, `StabsLayout`, `StabsEvents`, `StabsPrograms`, `StabsReaders`, `StabsModule` | the STABS reader, the bytes and the programs it reads, and the handler that infers sizes afterwards |
| `PageAllocators`, `MinidumpFiles`, `Md5Updates`, `SmartLinks` | the page allocator, the minidump writer, the buffering of MD5 and the SmartLink encoding |

Code that changes objects or buffers is written as classes and methods, each proved
against a function or a set that says what it should compute; the main results are
lemmas about those functions, for all inputs and all runs.

## Reading the results

- *Range map*: `ContainedRangeMap.Store` and `Retrieve` speak of the flat set of
  stored ranges; `OrderIndependent` says that the order of insertion does not matter.
- *Line sweep*: `AssignLinesToFunctions` is sound on all input, and exact, reports
  included, on disjoint functions and lines. `FinishUnit` shows that whatever the
  line program and the function entries are, no assertion fails.
- *Call frame information*: `EventsFound` runs through all four stages, and says both
  when something is found and what. `ExpressionMeans` gives what is found its meaning,
  and `Unwound` takes it on to the registers of the caller.
- *Unicode*: `From8Ends`, `From16Ends`, `From32To8Ends` and `From32To16Ends` say how every
  conversion ends; then `ThroughUtf32`, `TextSurvives`, `RoomExact`, `SplitTarget`,
  `SplitFrom32` and `UTF8ToUTF16Char`.
- *STABS*: `SectionReads` and `ProgramRuns` say what a section means, byte by byte and
  entry by entry; `ReadSection`, `GatherExact`, `LoadStabs` and `ModuleSettled` what
  becomes of it.
- *Runs*: `RunSound` (allocator), `RunsKeep` (minidump), `FeedParts` (MD5),
  `LossTolerated` (SmartLink).

## Where the code and what it says differ

- `isLegalUTF8` does not accept only well-formed characters: after ED and F4 the
  second byte has no lower bound (`LooseExample`). `LegalExact` gives the whole family,
  and `BytesReturn` says when bytes survive a round trip in spite of it. Everything
  accepted still reads as a scalar value (`LegalIsScalar`), so the surrogate and range
  checks after decoding are never taken.
- In strict mode a UTF-32 value above 10FFFF does not stop the converters to UTF-8 and
  UTF-16: the error is noted and conversion goes on (`StrictStops`). With room to spare
  the status still tells (`StrictExact`). If the target runs out, the noted error is
  overwritten, and a caller that goes on in a new buffer may end with success
  (`ErrorLost`); `SplitFrom32` says exactly when.
- A STACK CFI INIT record without rules is rejected by the resolver, and after more
  than 100 errors it reads nothing more (`UnruledLost`, `ReachExact`).
  `DwarfCFIToModule::Entry` starts an entry with a rule that cites the return address
  register even if that register has an empty name, as many in the ARM tables have; the
  rule is then empty, and unless another is given for the return address at the start,
  nothing is found in that entry (`UnnamedReturnLost`). `EventsFound` and `TextsFound`
  say exactly when something is found.
- The comment on the fallback size in `StabsToModule::Finalize` says that it is given
  at most once. Functions at the same, greatest address all get it (`TwinsFallBack`);
  `ModuleSettled` says that exactly those at the greatest boundary do.

## Model

| member | source | states |
|---|---|---|
| `ContainedRangeMaps.ContainedRangeMap.Store` | jagles/src/main/jni/breakpad/processor/contained_range_map-inl.h:57-147 | in every valid object tree, storing succeeds exactly if the range is non-empty, does not run past 2^64, equals no stored range and crosses none; success adds exactly that range to the flat set and failure changes nothing; every object still has one owner |
| `ContainedRangeMaps.ContainedRangeMap.StoreRange` | jagles/src/main/jni/breakpad/processor/contained_range_map-inl.h:57-70 | the recursive call: the objects afterwards form exactly the tree that the insertion into the old tree yields, within the bounds handed down |
| `ContainedRangeMaps.ContainedRangeMap.StoreChecked` | jagles/src/main/jni/breakpad/processor/contained_range_map-inl.h:72-96 | after the size check: both lower bounds, the identical-range refusal and the delegation to a child, with the child's new tree taking the old one's place |
| `ContainedRangeMaps.ContainedRangeMap.StoreInChild` | jagles/src/main/jni/breakpad/processor/contained_range_map-inl.h:94-95 | delegation keeps ownership: only objects below that child change, the others keep their trees and owners |
| `ContainedRangeMaps.ContainedRangeMap.StoreHere` | jagles/src/main/jni/breakpad/processor/contained_range_map-inl.h:98-146 | storing among the children of this node: refuses exactly when a child is crossed, otherwise moves the enclosed children |
| `ContainedRangeMaps.ContainedRangeMap.Adopt` | jagles/src/main/jni/breakpad/processor/contained_range_map-inl.h:125-146 | the enclosed children become children of the new node, in order, none lost, duplicated or shared |
| `ContainedRangeMaps.ContainedRangeMap.NewParent` | jagles/src/main/jni/breakpad/processor/contained_range_map-inl.h:128-135 | the new node is valid and owns exactly itself and the parts of the children copied to it |
| `ContainedRangeMaps.ContainedRangeMap.Attach` | jagles/src/main/jni/breakpad/processor/contained_range_map-inl.h:136-146 | erasing the children and inserting the new one by its high key leaves this node valid with the spliced tree |
| `ContainedRangeMaps.KeySpliced` | jagles/src/main/jni/breakpad/processor/contained_range_map-inl.h:136-145 | erasing a stretch of the key map and inserting the new high key puts it exactly where the stretch was |
| `ContainedRangeMaps.OwnsAdopted` | jagles/src/main/jni/breakpad/processor/contained_range_map-inl.h:130-145 | moving parts under a fresh object keeps the ownership disjoint |
| `ContainedRangeMaps.ContainedRangeMap.RetrieveRange` | jagles/src/main/jni/breakpad/processor/contained_range_map-inl.h:151-178 | the recursion over objects computes the lookup in their tree |
| `ContainedRangeMaps.ContainedRangeMap.Retrieve` | jagles/src/main/jni/breakpad/processor/contained_range_map-inl.h:151-178 | at the root: the entry of the smallest stored range holding the address, or nothing exactly if none holds it |
| `ContainedRangeMaps.ContainedRangeMap.Clear` | jagles/src/main/jni/breakpad/processor/contained_range_map-inl.h:182-191 | leaves a valid empty map, having deleted as many objects as the tree has nodes, each once and all of them below this one |
| `RangeForest.InsertExact` | jagles/src/main/jni/breakpad/processor/contained_range_map-inl.h:57-147 | insertion into a well-formed tree succeeds exactly on a storable range, keeps well-formedness and adds exactly that range |
| `RangeForest.StoredAsExact` | jagles/src/main/jni/breakpad/processor/contained_range_map-inl.h:57-147 | the same with the size and overflow checks of the entry point |
| `RangeForest.CrossedNotStorable` | jagles/src/main/jni/breakpad/processor/contained_range_map-inl.h:105-116 | the test that gives up refuses only ranges that really cross a stored one |
| `RangeForest.UncrossedAdoptable` | jagles/src/main/jni/breakpad/processor/contained_range_map-inl.h:118-138 | a range that passes the test encloses exactly a contiguous stretch of children |
| `RangeForest.RangesOfAdopted` | jagles/src/main/jni/breakpad/processor/contained_range_map-inl.h:130-145 | moving a stretch of children below a new node adds only the new range to the flat set |
| `RangeForest.LookupFindsSmallest` | jagles/src/main/jni/breakpad/processor/contained_range_map-inl.h:161-177 | the lookup answers with the unique smallest stored range holding the address, and fails exactly if there is none |
| `RangeForest.ForestCanonical` | jagles/src/main/jni/breakpad/processor/contained_range_map.h:34-48 | two well-formed trees with the same flat set of ranges are equal |
| `RangeForest.InsertAllExact` | jagles/src/main/jni/breakpad/processor/contained_range_map.h:34-48 | storing a sequence of ranges succeeds in full exactly if they are distinct and pairwise disjoint or nested |
| `RangeForest.OrderIndependent` | jagles/src/main/jni/breakpad/processor/contained_range_map.h:34-48 | every order of such a family succeeds in full and builds the same tree, so all queries agree |
| `LineSweep.WithinIsMembership` | jagles/src/main/jni/breakpad/common/dwarf_cu_to_module.cc:838-844 | the wrapping subtraction test is membership for ranges that do not run past 2^64 |
| `LineSweep.NextTransition` | jagles/src/main/jni/breakpad/common/dwarf_cu_to_module.cc:941-1008 | on wrapped addresses, the next transition is the least range end after the current address, with 0 for 2^64 |
| `SweepSteps.NextFacts` | jagles/src/main/jni/breakpad/common/dwarf_cu_to_module.cc:941-1008 | transitions strictly increase and stop at the ends of the current function and line |
| `SweepSteps.Uniform` | jagles/src/main/jni/breakpad/common/dwarf_cu_to_module.cc:910-934 | between transitions membership in functions and lines does not change |
| `LineSweep.AheadShrinks` | jagles/src/main/jni/breakpad/common/dwarf_cu_to_module.cc:1033-1034 | every transition is an endpoint of some range, and fewer endpoints lie ahead of it |
| `LineSweep.Visit` | jagles/src/main/jni/breakpad/common/dwarf_cu_to_module.cc:941-1008 | one turn: the piece pushed, the functions and lines cited and the last line used are those of the abstract step |
| `LineSweep.InvStep` | jagles/src/main/jni/breakpad/common/dwarf_cu_to_module.cc:908-1035 | one step keeps the sweep invariant: pieces sound, and on disjoint input exactly the pieces and reports due up to the new address |
| `SweepSteps.HandedStep` | jagles/src/main/jni/breakpad/common/dwarf_cu_to_module.cc:947-957 | on disjoint input, after every step each function holds exactly its intersections with the lines up to the current address |
| `SweepWarnings.FunctionsCitedStep` | jagles/src/main/jni/breakpad/common/dwarf_cu_to_module.cc:958-963 | after every step the functions reported are exactly those with a byte passed that is in no line, each once |
| `SweepWarnings.LinesCitedStep` | jagles/src/main/jni/breakpad/common/dwarf_cu_to_module.cc:971-989 | after every step the lines reported are exactly those with a stray byte passed that is not padding before the next function, each once |
| `LineSweep.Sweep` | jagles/src/main/jni/breakpad/common/dwarf_cu_to_module.cc:880-1035 | the whole loop: terminates within 2(functions + lines) turns with no assertion failing, every piece inside its function and its line; on disjoint input the outcome is exact |
| `LineSweep.PassFunctions` | jagles/src/main/jni/breakpad/common/dwarf_cu_to_module.cc:1021-1025 | advances past exactly the functions that end by the transition |
| `LineSweep.PassLines` | jagles/src/main/jni/breakpad/common/dwarf_cu_to_module.cc:1026-1030 | advances past exactly the lines that end by the transition |
| `LineSweep.Start` | jagles/src/main/jni/breakpad/common/dwarf_cu_to_module.cc:892-906 | the first address is a range start, and the least one |
| `LineSweep.SortByAddress` | jagles/src/main/jni/breakpad/common/dwarf_cu_to_module.cc:863-865 | the result is a sorted permutation |
| `LineSweep.ApartSorted` | jagles/src/main/jni/breakpad/common/dwarf_cu_to_module.cc:863-865 | ranges no two of which share a byte come one after another once sorted |
| `LineSweep.AssignLinesToFunctions` | jagles/src/main/jni/breakpad/common/dwarf_cu_to_module.cc:847-1036 | for any vectors: permutations of the input are swept soundly in bounded turns; if no two functions and no two lines of the input share a byte, each function gets exactly the address-ordered intersections, uncovered functions and wasted lines are reported once each and nothing else is, including when the loop leaves early at 2^64 |
| `LineTables.PiecesAscend` | jagles/src/main/jni/breakpad/common/dwarf_cu_to_module.cc:951-956 | the intersections with disjoint lines come in address order without overlap |
| `LineTables.PiecesTell` | jagles/src/main/jni/breakpad/common/dwarf_cu_to_module.cc:953-955 | a byte of the function is in a piece exactly if it is in a line, and the piece has that line's file and number |
| `DwarfUnits.DwarfLineToModule.AddLine` | jagles/src/main/jni/breakpad/common/dwarf_line_to_module.cc:106-141 | one call acts on lines and omitted end as the pure step does, and all lines kept are non-empty, above zero and inside the address space |
| `DwarfUnits.FeedKeeps` | jagles/src/main/jni/breakpad/common/dwarf_line_to_module.cc:115-123 | over a run of non-empty calls, the omitted end recognizes exactly the contiguous stretches that start at zero |
| `DwarfUnits.RunKeeps` | jagles/src/main/jni/breakpad/common/dwarf_line_to_module.cc:106-141 | over every run: empty lines count for nothing, lines of stretches from zero are omitted, every other line with a known file is kept once, clipped |
| `DwarfUnits.FinishedRange` | jagles/src/main/jni/breakpad/common/dwarf_cu_to_module.cc:533-568 | an entry yields a function exactly if its range is non-empty, does not wrap and does not start at zero; the range is then the entry's |
| `DwarfUnits.CollectLines` | jagles/src/main/jni/breakpad/common/dwarf_line_to_module.cc:106-141 | feeding calls to the object collects exactly the lines that should survive |
| `DwarfUnits.CollectFunctions` | jagles/src/main/jni/breakpad/common/dwarf_cu_to_module.cc:543-563 | the functions made are exactly those of the accepted entries, in order, with the name for unnamed ones |
| `DwarfUnits.FinishUnit` | jagles/src/main/jni/breakpad/common/dwarf_cu_to_module.cc:847-1036 | for every sequence of line calls and entries, overlapping or not, the sweep's assertions hold and its pieces are sound; if no two accepted functions and no two kept lines share a byte, pieces and reports are exact |
| `Texts.TokensByCalls` | jagles/src/main/jni/breakpad/processor/cfi_frame_info.cc:135-161 | calling the tokenizer to the end yields the maximal stretches without delimiters |
| `Texts.TokensJoin` | jagles/src/main/jni/breakpad/processor/cfi_frame_info.cc:157-159 | words joined by single spaces are cut back into the same words |
| `Texts.HexRoundTrip` | jagles/src/main/jni/breakpad/processor/basic_source_line_resolver.cc:451-461 | a 64-bit number printed in hexadecimal is read back by strtoul |
| `CfiRules.Parse` | jagles/src/main/jni/breakpad/processor/cfi_frame_info.cc:126-171 | the token loop with its pending name and expression computes the recursive parser |
| `CfiRules.AcceptanceExact` | jagles/src/main/jni/breakpad/processor/cfi_frame_info.cc:139-171 | a rule set is accepted exactly if its tokens are one or more groups of a name and one or more words |
| `CfiRules.ParseAcceptsGroups` | jagles/src/main/jni/breakpad/processor/cfi_frame_info.cc:139-171 | accepted groups are applied in order, later duplicates winning |
| `CfiRules.AcceptedAreGroups` | jagles/src/main/jni/breakpad/processor/cfi_frame_info.cc:139-171 | whatever is accepted is a sequence of groups |
| `CfiRules.NamedGroupsExact` | jagles/src/main/jni/breakpad/processor/cfi_frame_info.cc:139-171 | named groups whose words may be missing are accepted exactly if none lacks words |
| `CfiRules.Serialize` | jagles/src/main/jni/breakpad/processor/cfi_frame_info.cc:104-124 | prints the CFA and return address rules that exist and then the register rules, separated by single spaces |
| `CfiRules.ParseRuleText` | jagles/src/main/jni/breakpad/processor/cfi_frame_info.cc:126-171 | printed rules parse back: the rules are set in the order printed |
| `CfiRules.SerializeRoundTrip` | jagles/src/main/jni/breakpad/processor/cfi_frame_info.cc:104-171 | for every rule set accepted into an empty frame info, serializing it is accepted again and rebuilds the same frame info |
| `RangeMaps.StoreRangeExact` | jagles/src/main/jni/breakpad/processor/range_map-inl.h:61-160 | a range is stored exactly if it is non-empty, does not wrap and overlaps none; then exactly it is added |
| `RangeMaps.RetrieveRangeExact` | jagles/src/main/jni/breakpad/processor/range_map-inl.h:163-190 | retrieval finds exactly the stored range holding the address |
| `CfiRecords.WriteRuleMap` | jagles/src/main/jni/breakpad/common/module.cc:224-232 | the loop prints the rules in map order |
| `CfiRecords.WriteEntry` | jagles/src/main/jni/breakpad/common/module.cc:298-318 | the INIT record and the records of the changes of one entry |
| `CfiRecords.WriteStackCFI` | jagles/src/main/jni/breakpad/common/module.cc:293-320 | the records of all entries, in order |
| `CfiRecords.FindCFIFrameInfo` | jagles/src/main/jni/breakpad/processor/basic_source_line_resolver.cc:280-312 | the loop over lower-bounded deltas applies exactly the changes filed from the range's base up to the address, in address order |
| `CfiRecords.OrdersExist` | jagles/src/main/jni/breakpad/common/module.cc:224-232 | there are orders of keys such as the printing results assume |
| `CfiTables.FindInEntry` | jagles/src/main/jni/breakpad/processor/basic_source_line_resolver.cc:280-312 | looking up an address inside one of disjoint entries finds the rule that entry puts in force |
| `CfiTables.FoundInEntry` | jagles/src/main/jni/breakpad/processor/basic_source_line_resolver.cc:290-299 | something is found inside an entry exactly if it has initial rules and the parser accepts them |
| `CfiTables.FindOutside` | jagles/src/main/jni/breakpad/processor/basic_source_line_resolver.cc:290-293 | at an address of no entry with initial rules nothing is found |
| `CfiMeaning.MapTextParses` | jagles/src/main/jni/breakpad/common/module.cc:224-232 | a printed safe rule map, parsed into a frame info, overrides exactly the rules the map gives |
| `CfiMeaning.MapTextAccepted` | jagles/src/main/jni/breakpad/common/module.cc:224-232 | a printed map with safe names is accepted exactly if no rule in it is empty |
| `CfiMeaning.BareInitRejected` | jagles/src/main/jni/breakpad/processor/basic_source_line_resolver.cc:448-449 | the INIT record of an entry without initial rules is rejected and changes nothing |
| `CfiMeaning.InitLineParses` | jagles/src/main/jni/breakpad/processor/basic_source_line_resolver.cc:431-455 | an INIT record that was written, with empty rules or without, is read back into the range of its entry |
| `CfiMeaning.DeltaLineParses` | jagles/src/main/jni/breakpad/processor/basic_source_line_resolver.cc:457-464 | a change record that was written is filed back at its address |
| `CfiMeaning.LoadAllLines` | jagles/src/main/jni/breakpad/processor/basic_source_line_resolver.cc:130-188 | reading the records fills both tables with exactly the entries, with one error for each entry that lacks initial rules and no other |
| `CfiMeaning.GivesUp` | jagles/src/main/jni/breakpad/processor/basic_source_line_resolver.cc:183-185 | once there are too many errors nothing more is read |
| `CfiMeaning.LoadReached` | jagles/src/main/jni/breakpad/processor/basic_source_line_resolver.cc:130-188 | the same for any number of entries: exactly those are read that come before too many lack initial rules |
| `CfiMeaning.ReachExact` | jagles/src/main/jni/breakpad/processor/basic_source_line_resolver.cc:183-185 | an entry is read exactly if, up to and with it, no more than 100 lack initial rules |
| `CfiMeaning.TextLoads` | jagles/src/main/jni/breakpad/processor/basic_source_line_resolver.cc:127-188 | the same from the text with its line ends, for every file whose names and rules can be printed |
| `CfiMeaning.TextFinds` | jagles/src/main/jni/breakpad/processor/basic_source_line_resolver.cc:280-312 | from entries through printed text and the tables read from it, the lookup in a safe entry that is read finds for every name the rule the entry puts in force, whatever the other entries are like |
| `CfiMeaning.TextFoundExact` | jagles/src/main/jni/breakpad/processor/basic_source_line_resolver.cc:280-312 | through the text, something is found in an entry exactly if it is read, has initial rules, and none of them is empty |
| `CfiMeaning.TextFindsNone` | jagles/src/main/jni/breakpad/processor/basic_source_line_resolver.cc:290-293 | through the text, nothing is found outside the entries |
| `CfiDwarf.DwarfCFIToModule.Entry` | jagles/src/main/jni/breakpad/common/dwarf_cfi_to_module.cc:145-170 | starts an entry with the return address rule that cites its register, if the register is within the table |
| `CfiDwarf.DwarfCFIToModule.Record` | jagles/src/main/jni/breakpad/common/dwarf_cfi_to_module.cc:192-210 | files a rule as an initial one exactly at the entry's own address and otherwise among the changes at that address |
| `CfiDwarf.DwarfCFIToModule.SameValueRule` | jagles/src/main/jni/breakpad/common/dwarf_cfi_to_module.cc:218-223 | records that a register keeps its value |
| `CfiDwarf.DwarfCFIToModule.OffsetRule` | jagles/src/main/jni/breakpad/common/dwarf_cfi_to_module.cc:225-231 | records a value saved at an offset from a register, as the text that `TextMeans` evaluates |
| `CfiDwarf.DwarfCFIToModule.ValOffsetRule` | jagles/src/main/jni/breakpad/common/dwarf_cfi_to_module.cc:233-239 | records a value that is an offset from a register, as the text that `TextMeans` evaluates |
| `CfiDwarf.DwarfCFIToModule.RegisterRule` | jagles/src/main/jni/breakpad/common/dwarf_cfi_to_module.cc:241-247 | records a value kept in another register |
| `CfiDwarf.DwarfCFIToModule.Handle` | jagles/src/main/jni/breakpad/common/dwarf_cfi_to_module.cc:212-261 | every callback acts as the reference step; undefined and expression rules change nothing |
| `CfiDwarf.DwarfCFIToModule.End` | jagles/src/main/jni/breakpad/common/dwarf_cfi_to_module.cc:263-267 | hands over the entry |
| `CfiDwarf.DwarfCFIToModule.Receive` | jagles/src/main/jni/breakpad/common/dwarf_cfi_to_module.cc:145-267 | a whole run of callbacks for a frame description entry adds exactly the entry it describes |
| `CfiDwarf.SomeInForce` | jagles/src/main/jni/breakpad/common/dwarf_cfi_to_module.cc:192-210 | at most one given rule is in force for a name at an address, and one is exactly if one was given up to there |
| `CfiDwarf.FilingHolds` | jagles/src/main/jni/breakpad/common/dwarf_cfi_to_module.cc:192-210 | the entry built holds at every address the last rule given there |
| `CfiDwarf.RuleAtIsLast` | jagles/src/main/jni/breakpad/common/dwarf_cfi_to_module.cc:192-210 | the rule an entry puts in force is the last one given at the greatest address up to there |
| `CfiDwarf.TextIsSafe` | jagles/src/main/jni/breakpad/common/dwarf_cfi_to_module.cc:172-247 | every rule text made from plain register names survives printing and parsing |
| `CfiDwarf.InitialRulesExact` | jagles/src/main/jni/breakpad/common/dwarf_cfi_to_module.cc:160-167 | the initial rules of an entry are accepted exactly if the return address does not end up with an empty rule, as it does when its register is in the table with an empty name and no rule is given for it at the start |
| `CfiDwarf.TextsFound` | jagles/src/main/jni/breakpad/common/dwarf_cfi_to_module.cc:145-267 | end to end by names, which need not be distinct: for disjoint descriptions with events inside them, addresses not below the load address and plain or empty register names, something is found at an address of a description exactly if some rule is given at its start, the return address does not end up with an empty rule there, and the resolver has not given up; the text found for a name is then the last one recorded for it, and there is none if none was |
| `PostfixEvaluators.LiteralReads` | jagles/src/main/jni/breakpad/processor/postfix_evaluator-inl.h:286-306 | a number printed in decimal, with its sign, is taken for its value in the type |
| `PostfixEvaluators.SignedReads` | jagles/src/main/jni/breakpad/common/dwarf_cfi_to_module.cc:225-239 | every integer printed in decimal, with its sign, is read back |
| `PostfixEvaluators.AlignRoundsDown` | jagles/src/main/jni/breakpad/processor/postfix_evaluator-inl.h:129-132 | aligning by a power of two clears exactly the low bits |
| `PostfixEvaluators.DividedIs` | jagles/src/main/jni/breakpad/processor/postfix_evaluator-inl.h:123-128 | quotient and remainder put the dividend together again |
| `PostfixEvaluators.PostfixEvaluator.PopValueOrIdentifier` | jagles/src/main/jni/breakpad/processor/postfix_evaluator-inl.h:271-313 | pops one entry and tells a literal from an identifier |
| `PostfixEvaluators.PostfixEvaluator.PopValue` | jagles/src/main/jni/breakpad/processor/postfix_evaluator-inl.h:316-342 | pops one entry and resolves it by the dictionary |
| `PostfixEvaluators.PostfixEvaluator.PushValue` | jagles/src/main/jni/breakpad/processor/postfix_evaluator-inl.h:352-357 | pushes a value as its decimal text |
| `PostfixEvaluators.PostfixEvaluator.EvaluateToken` | jagles/src/main/jni/breakpad/processor/postfix_evaluator-inl.h:69-202 | one token: operator, dereference, assignment or operand, with every way to fail |
| `PostfixEvaluators.PostfixEvaluator.EvaluateWord` | jagles/src/main/jni/breakpad/processor/postfix_evaluator-inl.h:212-228 | an assignment smashed up against the next word is taken apart |
| `PostfixEvaluators.PostfixEvaluator.EvaluateInternal` | jagles/src/main/jni/breakpad/processor/postfix_evaluator-inl.h:204-231 | the loop over the words of an expression |
| `PostfixEvaluators.PostfixEvaluator.EvaluateForValue` | jagles/src/main/jni/breakpad/processor/postfix_evaluator-inl.h:252-269 | yields the value that is left alone on the stack, and always clears the stack |
| `PostfixEvaluators.PostfixEvaluator.Evaluate` | jagles/src/main/jni/breakpad/processor/postfix_evaluator-inl.h:233-250 | succeeds exactly if nothing is left on the stack, which is cleared; the dictionary then has the assignments |
| `PostfixEvaluators.ExpressionRuns` | jagles/src/main/jni/breakpad/processor/postfix_evaluator-inl.h:204-231 | the postfix form of any expression tree leaves exactly one entry more, which resolves to the meaning of the tree, or fails where the tree has none |
| `PostfixEvaluators.ExpressionMeans` | jagles/src/main/jni/breakpad/processor/postfix_evaluator-inl.h:252-269 | the text of any expression tree evaluates to its meaning by structure, with operands in their places, and to no value if it has none |
| `PostfixEvaluators.AssignmentRuns` | jagles/src/main/jni/breakpad/processor/postfix_evaluator-inl.h:166-193 | a variable, an expression and an assignment put the meaning of the expression in the dictionary and leave the stack as it was |
| `PostfixEvaluators.SmashedRuns` | jagles/src/main/jni/breakpad/processor/postfix_evaluator-inl.h:212-224 | a smashed assignment acts as the assignment and then the word |
| `CfiCallers.FindCallerRegs` | jagles/src/main/jni/breakpad/processor/cfi_frame_info.cc:50-92 | computes the canonical frame address first, then return address and registers with it in place; any failure fails all |
| `CfiCallers.TextMeans` | jagles/src/main/jni/breakpad/common/dwarf_cfi_to_module.cc:218-247 | the text recorded for a rule evaluates exactly to the value of the register it names, that plus the offset, or memory at that plus the offset, for every sign of the offset |
| `CfiCallers.SavedBelow` | jagles/src/main/jni/breakpad/common/dwarf_cfi_to_module.cc:225-231 | a register saved 16 bytes below the canonical frame address gets the text ".cfa -16 + ^" |
| `CfiUnwinding.NameIs` | jagles/src/main/jni/breakpad/common/dwarf_cfi_to_module.cc:172-190 | the name of a register is that at its place in the table, a fixed one for the canonical frame address and the return address, or one that ends in its number |
| `CfiUnwinding.NamesApart` | jagles/src/main/jni/breakpad/common/dwarf_cfi_to_module.cc:172-190 | if the names in the table are distinct, every register has a name of its own |
| `CfiUnwinding.LastIsInForce` | jagles/src/main/jni/breakpad/common/dwarf_cfi_to_module.cc:192-210 | the last event for a register, by address and then by order, is the one whose rule is in force for its name |
| `CfiUnwinding.EventsFound` | jagles/src/main/jni/breakpad/common/dwarf_cfi_to_module.cc:145-267 | end to end by registers: something is found exactly if a rule is given at the start of the description, its return address does not have an empty name there without an event to replace it, and no more than the tolerated number of descriptions before it start without a rule; what is found has for each register the rule of its last event, the initial one for a return address without, and no other rules |
| `CfiUnwinding.RuleYields` | jagles/src/main/jni/breakpad/processor/cfi_frame_info.cc:64-86 | what is found for a register evaluates to just the value that the events up to the address give it |
| `CfiUnwinding.CallersExact` | jagles/src/main/jni/breakpad/processor/cfi_frame_info.cc:50-92 | the registers of the caller are found exactly if the canonical frame address, the return address and all registers with rules can be recovered |
| `CfiUnwinding.CallersMean` | jagles/src/main/jni/breakpad/processor/cfi_frame_info.cc:64-91 | they are then the values the events describe, for exactly the registers with rules |
| `CfiUnwinding.Unwound` | jagles/src/main/jni/breakpad/processor/cfi_frame_info.cc:50-92 | from DWARF events through the symbol file to the registers of the caller: what is computed at an address is what the call frame information describes there |
| `CfiDwarf.UnnamedReturnLost` | jagles/src/main/jni/breakpad/common/dwarf_cfi_to_module.cc:160-167 | a description whose return address register has an empty name, and that gives no rules, is read without an error, and nothing is found in it |
| `CfiDwarf.UnruledLost` | jagles/src/main/jni/breakpad/common/dwarf_cfi_to_module.cc:160-167 | a description that gives no rule at all costs an error, and nothing is found in it |
| `CfiDwarf.NothingFoundOutside` | jagles/src/main/jni/breakpad/processor/basic_source_line_resolver.cc:290-293 | end to end, outside all descriptions nothing is found |
| `UtfCodec.LegalExact` | jagles/src/main/jni/breakpad/common/convert_UTF.c:313-337 | isLegalUTF8 accepts exactly the well-formed characters of section 4 of RFC 3629 and, besides, ED and F4 followed by a byte below 80 |
| `UtfCodec.LooseExample` | jagles/src/main/jni/breakpad/common/convert_UTF.c:321-330 | ED 20 80 is accepted, is not well-formed, and comes back as other bytes |
| `Bits.MarkedByte` | jagles/src/main/jni/breakpad/common/convert_UTF.c:287-291 | marking and masking a continuation byte yields 80 and the low six bits |
| `Bits.LeadBytes` | jagles/src/main/jni/breakpad/common/convert_UTF.c:219-219 | the marks of lead bytes add up with the bits of the character |
| `Bits.LowHalfBits` | jagles/src/main/jni/breakpad/common/convert_UTF.c:120-120 | the mask of the low half of a pair keeps the low ten bits |
| `UtfConverters.PutMarked` | jagles/src/main/jni/breakpad/common/convert_UTF.c:287-291 | one continuation byte, with its bit operations |
| `UtfConverters.PutLead` | jagles/src/main/jni/breakpad/common/convert_UTF.c:291-291 | the lead byte, with its mark |
| `UtfConverters.PutPair` | jagles/src/main/jni/breakpad/common/convert_UTF.c:118-120 | the two halves of a pair, with their shift and mask |
| `UtfCodec.Put8Reads` | jagles/src/main/jni/breakpad/common/convert_UTF.c:445-468 | the bytes written for a scalar value are well-formed and read back as it |
| `UtfCodec.WellFormedIsPut` | jagles/src/main/jni/breakpad/common/convert_UTF.c:369-382 | a well-formed character is what is written for the value it reads as |
| `UtfCodec.LegalIsScalar` | jagles/src/main/jni/breakpad/common/convert_UTF.c:369-382 | whatever is accepted reads as a scalar value, so the later surrogate and range checks never fire |
| `UtfCodec.Pair` | jagles/src/main/jni/breakpad/common/convert_UTF.c:139-148 | a surrogate pair reads as the value that is written as that pair |
| `UtfCodec.Put16Reads` | jagles/src/main/jni/breakpad/common/convert_UTF.c:113-120 | the units of a scalar value are one non-surrogate or a pair that reads back |
| `UtfConverters.Gather` | jagles/src/main/jni/breakpad/common/convert_UTF.c:372-380 | the drop-through switch adds up the bytes |
| `UtfConverters.ReadChar8` | jagles/src/main/jni/breakpad/common/convert_UTF.c:358-382 | reading a UTF-8 character: missing bytes, illegal bytes or the value, as `From8Ends` tells them apart |
| `UtfConverters.ReadChar16` | jagles/src/main/jni/breakpad/common/convert_UTF.c:138-171 | reading a UTF-16 character, strict or lenient |
| `UtfConverters.WriteBytes` | jagles/src/main/jni/breakpad/common/convert_UTF.c:287-293 | the drop-through switch writes exactly the bytes of the character from its end |
| `UtfConverters.ConvertUTF8toUTF16` | jagles/src/main/jni/breakpad/common/convert_UTF.c:354-422 | for every source, target and flag: status, source position, units written and all other target units are those of the step-by-step conversion; `From8Ends` says what these are |
| `UtfConverters.ConvertUTF8toUTF32` | jagles/src/main/jni/breakpad/common/convert_UTF.c:478-535 | likewise, with `From8Ends` |
| `UtfConverters.ConvertUTF16toUTF8` | jagles/src/main/jni/breakpad/common/convert_UTF.c:233-298 | likewise |
| `UtfConverters.ConvertUTF16toUTF32` | jagles/src/main/jni/breakpad/common/convert_UTF.c:130-182 | likewise |
| `UtfConverters.ConvertUTF32toUTF8` | jagles/src/main/jni/breakpad/common/convert_UTF.c:426-474 | likewise; too large a value is replaced and noted, and conversion goes on |
| `UtfConverters.ConvertUTF32toUTF16` | jagles/src/main/jni/breakpad/common/convert_UTF.c:82-126 | likewise; in strict mode too large a value is skipped and noted, and conversion goes on |
| `Conversions.AmpleRoom` | jagles/src/main/jni/breakpad/common/convert_UTF.c:354-422 | with enough room the target makes no difference |
| `Conversions.BufferIsPrefix` | jagles/src/main/jni/breakpad/common/convert_UTF.c:384-418 | a conversion that lacks room is the beginning of the whole one, up to a place where it can go on |
| `Conversions.ResumeIsWhole` | jagles/src/main/jni/breakpad/common/convert_UTF.c:384-418 | going on in new buffers gives the units, source position and status of one large call |
| `UtfSteps.SuccessExact` | jagles/src/main/jni/breakpad/common/convert_UTF.c:82-182 | a converter that only takes encoded scalars succeeds exactly on encoded text |
| `UtfTexts.TextSurvives` | jagles/src/main/jni/breakpad/common/convert_UTF.c:82-535 | all six conversions take text in one form to the same text in the other and use all of it, so every round trip restores it |
| `UtfTexts.StrictExact` | jagles/src/main/jni/breakpad/common/convert_UTF.c:82-298 | with room to spare, strict conversions from UTF-16 and UTF-32 succeed exactly on encoded text |
| `UtfSplits.StrictStops` | jagles/src/main/jni/breakpad/common/convert_UTF.c:97-111 | with room to spare, strict conversions from UTF-32 stop at the first surrogate, which is the first value that is not a scalar exactly if no value before it is too large |
| `UtfSplits.PiecesAgree` | jagles/src/main/jni/breakpad/common/convert_UTF.c:82-126 | however the target of a conversion from UTF-32 is split, the units and the place in the source are those of one large call, and so is the status, except that a noted error may be gone |
| `UtfSplits.LostNeeds` | jagles/src/main/jni/breakpad/common/convert_UTF.c:89-111 | a noted error that is gone was lost at the end of a buffer that took the last value noted and not all of the output |
| `UtfSplits.LostUnder` | jagles/src/main/jni/breakpad/common/convert_UTF.c:89-111 | where there is such a buffer the error is lost under some split |
| `UtfSplits.SplitExact` | jagles/src/main/jni/breakpad/common/convert_UTF.c:89-111 | splitting makes a difference exactly if no value stops the converter and the output does not fit the least buffer that takes the last noted value |
| `UtfSplits.SplitFrom32` | jagles/src/main/jni/breakpad/common/convert_UTF.c:82-474 | the same for both converters from UTF-32; with no value above 10FFFF it makes none, nor to UTF-16 unless the conversion is strict |
| `UtfSplits.ErrorLost` | jagles/src/main/jni/breakpad/common/convert_UTF.c:89-111 | 110000 41 42 43, strict, to UTF-16 in buffers of two units, ends as if all were well |
| `UtfTexts.BytesExact` | jagles/src/main/jni/breakpad/common/convert_UTF.c:478-535 | conversion from UTF-8 succeeds exactly if every character is accepted, and yields text |
| `UtfTexts.BytesReturn` | jagles/src/main/jni/breakpad/common/convert_UTF.c:313-337 | bytes come back unchanged from UTF-32 exactly if every character is well-formed |
| `UtfTexts.WellFormedIsText` | jagles/src/main/jni/breakpad/common/convert_UTF.c:426-474 | well-formed bytes are exactly encoded text |
| `UtfTexts.ThroughUtf32` | jagles/src/main/jni/breakpad/common/convert_UTF.c:354-422 | UTF-8 to UTF-16 agrees with going through UTF-32: same status, same place, same units |
| `UtfTexts.SplitTarget` | jagles/src/main/jni/breakpad/common/convert_UTF.c:354-422 | any split of the UTF-16 target into buffers of two or more units makes no difference |
| `UtfOutcomes.TableAnnounces` | jagles/src/main/jni/breakpad/common/convert_UTF.c:193-203 | the table of trailing bytes tells the number of leading ones of the first byte, at least one byte and at most six |
| `UtfOutcomes.From8Ends` | jagles/src/main/jni/breakpad/common/convert_UTF.c:354-535 | how both conversions from UTF-8 end with room to spare, by the source alone: in success exactly at the end, exhausted exactly where fewer bytes are left than the next announces, illegal exactly where they are there and unacceptable; everything before is acceptable and the output is its values |
| `UtfOutcomes.FirstByteAlone` | jagles/src/main/jni/breakpad/common/convert_UTF.c:362-370 | C3 alone is exhausted, C3 41 is illegal, and nothing is used |
| `UtfOutcomes.From16Ends` | jagles/src/main/jni/breakpad/common/convert_UTF.c:130-298 | how both conversions from UTF-16 end: exhausted exactly at a high half that is the last unit, illegal exactly if strict at a misplaced half; everything before is text if strict, and the output is its values |
| `UtfOutcomes.From32To8Ends` | jagles/src/main/jni/breakpad/common/convert_UTF.c:426-474 | status, place and output from UTF-32 to UTF-8: up to the first surrogate if strict, values above 10FFFF replaced and told of |
| `UtfOutcomes.From32To16Ends` | jagles/src/main/jni/breakpad/common/convert_UTF.c:82-126 | status, place and output from UTF-32 to UTF-16: values above 10FFFF left out and told of if strict, replaced and not told of otherwise |
| `UtfOutcomes.Put8Others` | jagles/src/main/jni/breakpad/common/convert_UTF.c:445-468 | a surrogate is written as three bytes that add up to it, too large a value as the replacement |
| `UtfOutcomes.RoomExact` | jagles/src/main/jni/breakpad/common/convert_UTF.c:384-418 | one conversion into a buffer ends for lack of room exactly if the whole output does not fit; what it yields is a beginning of the whole |
| `UtfOutcomes.TargetRunsOut` | jagles/src/main/jni/breakpad/common/convert_UTF.c:130-535 | so it is for the four conversions from UTF-8 and UTF-16 |
| `UtfOutcomes.StopsInAnyRoom` | jagles/src/main/jni/breakpad/common/convert_UTF.c:92-105 | a surrogate that stops a strict conversion from UTF-32 is told of in any target, except that to UTF-16 a full target is told of first |
| `UtfConverters.UTF8ToUTF16Char` | jagles/src/main/jni/breakpad/common/string_conversion.cc:58-83 | returns the length of the first character and stores its units, or 0 and zeros if the input begins with none |
| `StabsEntries.ByteCursor.CheckAvailable` | jagles/src/main/jni/breakpad/common/byte_cursor.h:239-247 | a short read moves to the end and clears the flag for good |
| `StabsEntries.ByteCursor.Read` | jagles/src/main/jni/breakpad/common/byte_cursor.h:119-142 | the loops compute the number in either byte order |
| `StabsEntries.OrdersMirror` | jagles/src/main/jni/breakpad/common/byte_cursor.h:122-131 | the two byte orders agree on reversed bytes |
| `StabsEntries.EntryIterator.Fetch` | jagles/src/main/jni/breakpad/common/stabs_reader.cc:58-66 | fetching yields the entry at the cursor, whose layout `EntryReads` gives, and the end exactly if a whole entry does not fit |
| `StabsLayout.TwoBytes` | jagles/src/main/jni/breakpad/common/byte_cursor.h:119-142 | of two bytes the first counts 256 times as much in big-endian order, the second in little-endian order |
| `StabsLayout.EntryReads` | jagles/src/main/jni/breakpad/common/stabs_reader.cc:58-66 | name in bytes 0 to 3, type in byte 4, other in byte 5, descriptor in bytes 6 and 7, then the value: the entry with those fields is read, in either order and for either size of values |
| `StabsLayout.SectionReads` | jagles/src/main/jni/breakpad/common/stabs_reader.cc:58-66 | the bytes of any sequence of entries, with a rest too short for another, are read as exactly those entries |
| `StabsLayout.UnitEntryReads` | jagles/src/main/jni/breakpad/common/stabs_reader.cc:58-66 | the bytes of one little-endian entry at 0x1000 |
| `StabsEntries.EntryIterator.Advance` | jagles/src/main/jni/breakpad/common/stabs_reader.h:156-156 | drops the first of the entries left |
| `StabsEntries.EntriesCount` | jagles/src/main/jni/breakpad/common/stabs_reader.cc:58-66 | there are as many entries as fit into the section |
| `StabsEvents.AllInOrder` | jagles/src/main/jni/breakpad/common/stabs_reader.cc:93-298 | the callbacks due for any entries are units of functions of lines, and leave nothing open |
| `StabsEvents.HeardExact` | jagles/src/main/jni/breakpad/common/stabs_reader.cc:93-298 | a handler hears all callbacks, or exactly those up to the first it refuses |
| `StabsEvents.HeardInOrder` | jagles/src/main/jni/breakpad/common/stabs_reader.cc:93-298 | for every handler the callbacks are a beginning of (StartCU (StartFunction Line* EndFunction)* EndCU)*, complete if none is refused |
| `StabsEvents.AllowedCompletes` | jagles/src/main/jni/breakpad/common/stabs_reader.cc:93-298 | whatever the order allows can be completed |
| `StabsReaders.StabsReader.ReportQueued` | jagles/src/main/jni/breakpad/common/stabs_reader.cc:238-243 | lines seen before a function are reported after it starts, in order |
| `StabsReaders.StabsReader.FinishFunction` | jagles/src/main/jni/breakpad/common/stabs_reader.cc:245-298 | the loop of a function and its ending address make the callbacks that `BodyRuns` and `EndRuns` give by the entries |
| `StabsReaders.StabsReader.ProcessFunction` | jagles/src/main/jni/breakpad/common/stabs_reader.cc:221-298 | makes exactly the callbacks due for a function, up to a refusal |
| `StabsReaders.StabsReader.FinishUnit` | jagles/src/main/jni/breakpad/common/stabs_reader.cc:174-219 | the loop of a compilation unit and its end |
| `StabsReaders.StabsReader.ProcessCompilationUnit` | jagles/src/main/jni/breakpad/common/stabs_reader.cc:131-219 | makes exactly the callbacks due for a compilation unit, up to a refusal, and always progresses |
| `StabsReaders.StabsReader.Process` | jagles/src/main/jni/breakpad/common/stabs_reader.cc:93-129 | terminates, having made exactly the callbacks due, up to a refusal; `ProgramRuns` says which those are |
| `StabsReaders.ReadSection` | jagles/src/main/jni/breakpad/common/stabs_reader.cc:68-129 | for every byte array and every handler, the callbacks made are those due for the entries, in order, and complete if none is refused |
| `StabsPrograms.SymbolPlace` | jagles/src/main/jni/breakpad/common/stabs_reader.cc:81-91 | a name is found at its offset from the beginning of its unit's strings, or is the empty string at the beginning of the section if that is outside |
| `StabsPrograms.UntilExact` | jagles/src/main/jni/breakpad/common/stabs_reader.cc:229-231 | a name runs up to the first colon, or to the end of the string |
| `StabsPrograms.BodyRuns` | jagles/src/main/jni/breakpad/common/stabs_reader.cc:245-265 | inside a function, each line entry is reported at the start of the function plus its value, in the file named last before it |
| `StabsPrograms.LooseRuns` | jagles/src/main/jni/breakpad/common/stabs_reader.cc:178-201 | outside functions, line entries are queued at their own addresses, in the file named last before them |
| `StabsPrograms.EndRuns` | jagles/src/main/jni/breakpad/common/stabs_reader.cc:267-293 | a function ends at its start plus its size if a nameless entry tells it, else where the next function or unit begins, else at 0 |
| `StabsPrograms.UnitRuns` | jagles/src/main/jni/breakpad/common/stabs_reader.cc:131-219 | a compilation unit of functions of lines leads to exactly the callbacks of that program: unit with directory, functions with titles, queued and own lines, ends |
| `StabsPrograms.ProgramRuns` | jagles/src/main/jni/breakpad/common/stabs_reader.cc:93-298 | the callbacks due for the entries of any program of units and single entries are exactly those of the program, with names looked up by the unit headers before |
| `StabsPrograms.SectionRuns` | jagles/src/main/jni/breakpad/common/stabs_reader.cc:58-298 | the same from the bytes of the section, in either byte order |
| `StabsPrograms.EverySectionIsProgram` | jagles/src/main/jni/breakpad/common/stabs_reader.cc:93-298 | every sequence of entries is such a program, so nothing is left unsaid |
| `StabsPrograms.ExampleRuns` | jagles/src/main/jni/breakpad/common/stabs_reader.cc:131-298 | a unit with a directory and one function at 0x1000 whose line 7 is four bytes on: the five callbacks, by the literal types of entries |
| `StabsModule.HearKeeps` | jagles/src/main/jni/breakpad/common/stabs_to_module.cc:68-131 | for callbacks in order no state assertion fires, the handler keeps track of where it is, and every function starts at a boundary |
| `StabsModule.GatherExact` | jagles/src/main/jni/breakpad/common/stabs_to_module.cc:68-131 | by the places of the callbacks: gathered are exactly the functions not below the unit started last before them, each with its title and address and exactly the lines between its start and its end, in order; the boundaries are exactly the addresses where units and functions start, and the non-zero ones where they end |
| `StabsModule.Gather` | jagles/src/main/jni/breakpad/common/stabs_to_module.cc:68-131 | what is gathered from callbacks in order agrees with the phase, and every function starts at a boundary |
| `StabsModule.StabsToModule.StartCompilationUnit` | jagles/src/main/jni/breakpad/common/stabs_to_module.cc:68-77 | records the unit and its address as a boundary |
| `StabsModule.StabsToModule.EndCompilationUnit` | jagles/src/main/jni/breakpad/common/stabs_to_module.cc:79-88 | forgets the unit, and records a non-zero end |
| `StabsModule.StabsToModule.StartFunction` | jagles/src/main/jni/breakpad/common/stabs_to_module.cc:90-99 | opens a function and records its address as a boundary |
| `StabsModule.StabsToModule.EndFunction` | jagles/src/main/jni/breakpad/common/stabs_to_module.cc:101-115 | keeps the function unless it lies below its unit, and records a non-zero end; `GatherExact` says the same by places |
| `StabsModule.StabsToModule.Line` | jagles/src/main/jni/breakpad/common/stabs_to_module.cc:117-131 | adds the line to the open function with the file it names |
| `StabsModule.UpperBound` | jagles/src/main/jni/breakpad/common/stabs_to_module.cc:167-168 | finds where boundaries exceed the address |
| `StabsModule.FunctionSize` | jagles/src/main/jni/breakpad/common/stabs_to_module.cc:166-177 | the size reaches to the least greater boundary, or is the fallback exactly if there is none |
| `StabsModule.SortedStable` | jagles/src/main/jni/breakpad/common/stabs_to_module.cc:182-183 | sorting puts lines in address order and keeps those at one address as they were |
| `StabsModule.MeasureLines` | jagles/src/main/jni/breakpad/common/stabs_to_module.cc:184-190 | the loop makes each line end where the next begins |
| `StabsModule.SizesTelescope` | jagles/src/main/jni/breakpad/common/stabs_to_module.cc:184-190 | the sizes add up, modulo 2^64, to the distance from the first line to the function's end |
| `StabsModule.LinesTile` | jagles/src/main/jni/breakpad/common/stabs_to_module.cc:184-190 | lines not past the end tile that stretch |
| `StabsModule.StabsToModule.Finalize` | jagles/src/main/jni/breakpad/common/stabs_to_module.cc:155-195 | adds exactly the functions gathered, sorted, each settled by the sorted boundaries |
| `StabsModule.ModuleSettled` | jagles/src/main/jni/breakpad/common/stabs_to_module.cc:155-195 | each function ends at or before any that starts after it, exactly those at the greatest boundary fall back, and all lines are settled |
| `StabsModule.TwinsFallBack` | jagles/src/main/jni/breakpad/common/stabs_to_module.cc:171-177 | two functions at the greatest boundary both get the fallback size |
| `StabsModule.StabsToModule.Receive` | jagles/src/main/jni/breakpad/common/stabs_to_module.cc:68-195 | a whole run in order, with no assertion failing, adds the functions that lie among the callbacks by their places, settled by the boundaries that lie there |
| `StabsModule.LoadStabs` | jagles/src/main/jni/breakpad/common/stabs_to_module.cc:68-195 | reader and handler together, for every byte array: the functions added are, settled, those that lie by their places among the callbacks due; none reaches past the start of a later one, and lines are in order |
| `PageAllocators.PagesEnough` | jagles/src/main/jni/breakpad/common/memory.h:88-99 | the pages taken just suffice, and the offset is where the block ends in the last page |
| `PageAllocators.AllocKeeps` | jagles/src/main/jni/breakpad/common/memory.h:74-102 | whatever the kernel answers, the new block is inside a mapping, off its header and apart from all others; a call fails exactly if it asks for nothing or the kernel refuses, and then changes nothing |
| `PageAllocators.RunSound` | jagles/src/main/jni/breakpad/common/memory.h:74-138 | over every run with fresh mappings, blocks are pairwise disjoint and housed, and the page count is the sum over the headers |
| `PageAllocators.AllocExact` | jagles/src/main/jni/breakpad/common/memory.h:74-102 | a call takes what is left of the last page, right after the last block, exactly if it is enough, and otherwise asks for the fewest pages that take header and block |
| `PageAllocators.RunPacked` | jagles/src/main/jni/breakpad/common/memory.h:74-102 | over every run, what is left is the rest of the last page after the last block |
| `PageAllocators.BlocksOwned` | jagles/src/main/jni/breakpad/common/memory.h:105-113 | every byte of every block is owned and is in no header |
| `PageAllocators.PageAllocator.GetNPages` | jagles/src/main/jni/breakpad/common/memory.h:118-138 | writes the header into the new pages, links it in front and counts its pages, or does nothing |
| `PageAllocators.PageAllocator.Alloc` | jagles/src/main/jni/breakpad/common/memory.h:74-101 | the object's fields and result are those of the abstract allocation |
| `PageAllocators.PageAllocator.OwnsPointer` | jagles/src/main/jni/breakpad/common/memory.h:105-113 | walking the headers, true exactly for addresses inside a mapping |
| `PageAllocators.PageAllocator.FreeAll` | jagles/src/main/jni/breakpad/common/memory.h:140-147 | walks the headers in the pages, reading each before its pages go and never after, and unmaps exactly the mappings in the list |
| `PageAllocators.ListIsObtained` | jagles/src/main/jni/breakpad/common/memory.h:118-147 | over every run with fresh mappings the list holds exactly the mappings obtained from the kernel, each once |
| `MinidumpFiles.MinidumpFileWriter.Allocate` | jagles/src/main/jni/breakpad/client/minidump_file_writer.cc:270-308 | fields and result are those of the abstract allocation, with and without ftruncate |
| `MinidumpFiles.MinidumpFileWriter.Copy` | jagles/src/main/jni/breakpad/client/minidump_file_writer.cc:310-334 | writes only what fits below the size, and what the kernel takes |
| `MinidumpFiles.AllocateKeeps` | jagles/src/main/jni/breakpad/client/minidump_file_writer.cc:270-308 | below the 32-bit limit a chunk lies after all others, aligned unless ftruncate is avoided, within the size, and nothing written is lost; a failed allocation changes nothing |
| `MinidumpFiles.AllocateGrows` | jagles/src/main/jni/breakpad/client/minidump_file_writer.cc:270-308 | the file grows exactly if the chunk does not fit, by the chunk or a page, whichever is more |
| `MinidumpFiles.CopyKeeps` | jagles/src/main/jni/breakpad/client/minidump_file_writer.cc:310-334 | a copy to a part with its length fits, reads back, and touches no other part of any chunk |
| `MinidumpFiles.CopyFails` | jagles/src/main/jni/breakpad/client/minidump_file_writer.cc:310-334 | a copy the kernel cuts short can only spoil that part, and one that cannot seek changes nothing |
| `MinidumpFiles.PartsOfChunksApart` | jagles/src/main/jni/breakpad/client/minidump_file_writer-inl.h:57-95 | different parts of chunks never overlap |
| `MinidumpFiles.RunsKeep` | jagles/src/main/jni/breakpad/client/minidump_file_writer.cc:270-348 | over every interleaving of allocations and copies, complete or cut short, chunks stay apart, aligned and within the size, and every part last written in full reads back |
| `MinidumpFiles.TypedMDRVA.AllocateBytes` | jagles/src/main/jni/breakpad/client/minidump_file_writer.cc:336-341 | records size and position and reports an invalid one |
| `MinidumpFiles.TypedMDRVA.AllocateArray` | jagles/src/main/jni/breakpad/client/minidump_file_writer-inl.h:57-61 | allocates an array chunk |
| `MinidumpFiles.TypedMDRVA.AllocateObjectAndArray` | jagles/src/main/jni/breakpad/client/minidump_file_writer-inl.h:64-69 | allocates an object followed by an array |
| `MinidumpFiles.TypedMDRVA.CopyIndex` | jagles/src/main/jni/breakpad/client/minidump_file_writer-inl.h:72-77 | the copy at the scaled index, whatever it is; at an index there is, exactly to that element |
| `MinidumpFiles.TypedMDRVA.CopyIndexAfterObject` | jagles/src/main/jni/breakpad/client/minidump_file_writer-inl.h:80-88 | likewise after the object; with the allocated length, exactly to that element |
| `MinidumpFiles.TypedMDRVA.Flush` | jagles/src/main/jni/breakpad/client/minidump_file_writer-inl.h:91-93 | the copy to the object |
| `Md5Updates.InitialBytes` | jagles/src/main/jni/breakpad/common/md5.cc:46-55 | the chaining value starts as the bytes that section 3.3 of RFC 1321 lists, low-order byte first |
| `Md5Updates.FirstFunction` | jagles/src/main/jni/breakpad/common/md5.cc:152-154 | the optimized round functions are those of section 3.4 of RFC 1321 |
| `Md5Updates.CountAdds` | jagles/src/main/jni/breakpad/common/md5.cc:67-70 | the two words with their carry add eight times the length modulo 2^64 |
| `Md5Updates.Position` | jagles/src/main/jni/breakpad/common/md5.cc:72-72 | the low word holds the length modulo 64 |
| `Md5Updates.FoldMore` | jagles/src/main/jni/breakpad/common/md5.cc:74-103 | folding a longer message goes on from the chaining value and the tail |
| `Md5Updates.MD5Context.Blocks` | jagles/src/main/jni/breakpad/common/md5.cc:91-102 | the block loop folds the transform and buffers the tail |
| `Md5Updates.MD5Context.Feed` | jagles/src/main/jni/breakpad/common/md5.cc:74-102 | the buffered bytes and the data are folded as one |
| `Md5Updates.MD5Context.Update` | jagles/src/main/jni/breakpad/common/md5.cc:61-103 | chaining value, bit count and buffered bytes become those of the longer message |
| `Md5Updates.FeedParts` | jagles/src/main/jni/breakpad/common/md5.cc:46-103 | for any split of a message the context is that of the whole |
| `SmartLinks.SmartLink.SendTo` | jagles/src/main/jni/smartLink/com_app_jagles_smartlink_SmartLink.c:15-30 | hands a packet over unless an earlier one failed, and after a failure takes the error number again at every call |
| `SmartLinks.SmartLink.SendHeader` | jagles/src/main/jni/smartLink/com_app_jagles_smartlink_SmartLink.c:32-46 | the header packets, up to a failure |
| `SmartLinks.SmartLink.Send` | jagles/src/main/jni/smartLink/com_app_jagles_smartlink_SmartLink.c:124-151 | the packets of the message in order, up to the first that fails; the result is 0, or the error number as the last call found it |
| `SmartLinks.SmartLink.SendPacket` | jagles/src/main/jni/smartLink/com_app_jagles_smartlink_SmartLink.c:153-168 | likewise from any state an earlier message has left |
| `SmartLinks.SentExact` | jagles/src/main/jni/smartLink/com_app_jagles_smartlink_SmartLink.c:15-30 | all packets are sent, or exactly those up to the first that fails |
| `SmartLinks.PacketsFit` | jagles/src/main/jni/smartLink/com_app_jagles_smartlink_SmartLink.c:32-46 | every packet fits the buffer |
| `SmartLinks.DigitAlone` | jagles/src/main/jni/smartLink/com_app_jagles_smartlink_SmartLink.c:140-149 | in the interval of a digit of a place, the only length is that digit's |
| `SmartLinks.HeaderPlaces` | jagles/src/main/jni/smartLink/com_app_jagles_smartlink_SmartLink.c:32-46 | the header lengths are sent at exactly their places: two marks three times in turn, then each of the two counts twice in turn |
| `SmartLinks.CountBelow` | jagles/src/main/jni/smartLink/com_app_jagles_smartlink_SmartLink.c:32-46 | the number of characters can be read from the lengths below the data as well as from those above |
| `SmartLinks.SentTwice` | jagles/src/main/jni/smartLink/com_app_jagles_smartlink_SmartLink.c:140-147 | every data packet is sent exactly twice |
| `SmartLinks.DecodeSent` | jagles/src/main/jni/smartLink/com_app_jagles_smartlink_SmartLink.c:124-151 | the set of lengths alone determines a printable message of up to 44 characters |
| `SmartLinks.LossTolerated` | jagles/src/main/jni/smartLink/com_app_jagles_smartlink_SmartLink.c:124-151 | in any order, and with one copy of any data packet lost, the message is read back |

## Left out

- JNI headers, `libjnnat.h` and the OpenAL headers: declarations without bodies.
- The disassembler, exploitability rating and context dumping: they wrap libraries that are not part of this model.
- `PostfixEvaluator`: literals with two signs, which streams of some library versions take, are no literals here; where the program would die, by dividing by zero or by negating a literal where no value is wanted, the model stops with an outcome of its own, and `FindCallerRegs` finds nothing. The set of variables assigned is the dictionary.
- CfiCallers.TextMeans: offsets that the type of values cannot hold are excluded; in 64 bits there are none.
- CfiUnwinding.EventsFound: register names that two registers share, or that look like names made up for others, are excluded; `CfiDwarf.TextsFound` holds for them too.
- `STACK WIN` records and FILE, FUNC, PUBLIC and line records of symbol files: `ReadLine` passes over every line that is not a STACK line; null bytes in the middle of the file are not replaced.
- `ParseStackInfo` of a line that ends right after the platform: the source then reads past the terminator; the model takes the rest as empty.
- `AddressMap`, `MemoryRange`, `scoped_ptr`, `PathnameStripper`, `NonAllocatingMap`, `DefineDir`, `DefineFile` and the path helpers: they would only add easy members. Files are a map from numbers to names.
- Shrinking of overlapping ranges in `RangeMap`: it is not enabled for call frame information.
- `std::map` is a sorted sequence, or a map with an unknown order of its keys; `std::sort` is a sort that promises nothing about equal keys. A missing child map and an empty one are the same.
- Reports to standard error, demangling, file ids, `std::ostream` failures and memory exhaustion.
- `strtoul` is taken with a 64-bit `unsigned long`, and `UTF32` values as 32 bits wide; for accepted characters the width makes no difference.
- Bytes of text are characters of strings in the symbol file modules; there is no locale.
- STABS: the Mach-O extern branch, and strings that are not terminated within the string section, which the model ends there. String offsets across units follow the code, which takes the value of the header before the last as the offset; whether linkers write such values is not part of this model.
- `UTF8ToUTF16`, `UTF32ToUTF16` and `UTF16ToUTF8` on vectors: they call the converters with ends computed from capacities.
- `MD5Final` and the rounds of `MD5Transform`: the transform is a parameter, and no digest is claimed; `MD5Final` puts the length at bytes 14 and 15 of the buffer.
- `WriteString` and `WriteMemory` of the minidump writer, and destruction of objects that were never allocated.
- File descriptors, sockets, `mmap`, `munmap`, `ftruncate`, `lseek` and `write` are answers given as parameters; sizes in the page allocator and the minidump writer do not overflow `size_t`.
- Messages of 45 or more characters to SmartLink, which the source copies without a terminator, and characters outside printable ASCII.
- MinidumpFiles.AllocateKeeps: chunks that would reach the 32-bit limit are excluded, because positions wrap there.
