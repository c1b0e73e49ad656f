# Desenredo, verified: where an exception lands

Desenredo is a Level I unwinder with C++ and Rust personalities. This project models the three parts that
together decide where an exception lands, and proves what they promise one another.

- **Tables.** `Words`, `Leb128`, `Encoding`, `Table`, `Iterators`, `ChainFuel`, `TailStability`, `TypeTable`,
  `RoundTrip`, `ActionRecords`, `PrintedTypes` and `PrintedTables` model the bounded parser of language specific
  data: LEB128 (section 7.6 of DWARF Version 5), encoded pointers (LSB 5.0 Core, DWARF Extensions), header, call
  sites, action chains, the reverse type table and filter lists.
- **Personalities.** `RustScan`, `CxxScan`, `Protocol`, `Personalities` and `PrintedFrames` model the scan of one
  call site, the decoding and dispatch of raw callbacks, and the Rust and C++ phase decisions.
- **The unwinder.** `Registers`, `CallFrame`, `RowMeaning`, `Stack`, `Passes`, `Walk`, `Phases`, `Forcing` and `Runs`
  model register state, the reconstruction of callers from unwind rows (section 6.4.1 of DWARF Version 5), and the
  search, phase two, forced, resume and rethrow entries (Itanium C++ ABI: Exception Handling, sections 1.3 and 1.6).
- **The composition.** `Callbacks`, `Delivery`, `EndToEnd` and `Entering` put typed personalities on top of the unwinder.
- **Concrete inputs.** `Scenario` carries one propagation from printed tables to the landing pads, on a machine that
  unrolls its stack. `FailingInputs` holds an input for each weakness below. `SmallTables` serves both.

Loops and mutated objects of the source are methods and classes here (`ReadUleb`, `SiteIterator`, `State`,
`Caller`, `Cursor`, `Search`, `Normal`, `Force` and others). Each is proved equal to a function of its inputs or
of the old state, and the theorems are about these functions.

`dafny verify dfyconfig.toml` checks the whole project.

## Assumptions

The assumptions below appear as parameters or `requires` clauses, never as axioms.

- The stack is finite. `Stack.Unrolls` ties the cursor to a list of activations, each rebuilt from the one before,
  and to what lies beyond the last: the end of the stack, missing metadata, or a caller that cannot be rebuilt.
- Row lookup, readable memory and DWARF expressions are functions that do not change during one entry (`Machine`).
  Each entry of a run has its own machine.
- Personalities and stop functions write the context only when they answer INSTALL (`Passes.Disciplined`).
  `Delivery.TypedIsDisciplined` proves this of typed personalities. Otherwise an answer is an arbitrary
  function of the call and of everything called and answered before, until `Delivery` fixes the personalities.
- For agreement between phases, no frame in front of the one that the search picks has its key (`Stack.Foremost`).
  Distinct keys give this (`Stack.DistinctIsForemost`), and stack pointers that grow by at least two bytes from frame
  to frame give distinct keys (`Stack.GrowingIsDistinct`).
  `Phases.AgreementIffFirst` and `Stack.NeighboursAlias` say when and how it fails.
- Between two entries of one propagation, landing-pad code leaves the private words alone, and the frames older than
  its own keep their metadata, relation, stack pointer and return address; their personality and table pointers
  resolve alike on both machines (`Runs.Follows`, `Runs.SameFrame`). The landing pad's own frame does not take on the
  key of the handler's frame. Memory, the log of calls and the answers may change in every other way.
- Only cleanup pads resume: a run ends with the pad of the selected handler (`Runs.CleanupPad`).
- For delivery, rows mark no preserved register undefined (`CallFrame.Gentle`). A C++ matcher, at the one frame that
  the search selects, learns in the handler stage what it learned in the search up to the clause that ended it
  (`CxxScan.Repeats`). A matcher that only remembers the selected selector does so (`CxxScan.CacheRepeats`).
  Over one run the live table bytes of a frame, its personality policy and its matcher stay the same
  (one `source` and one `languages` in `EndToEnd.MixedStackDelivers`).
- `usize` has 64 bits. Registers are a map from DWARF numbers to words; an absent key is an unavailable register.

## Where the code is weaker than it looks

- `sleb` checks only the number of bytes. A tenth group can carry bits that are dropped without an error, so ten
  groups that spell 2^64 read as zero (`Leb128.SlebDropsHighBits`). The value is the sum of the groups if and only
  if that sum fits an i64 (`Leb128.SlebExactIff`).
- With the aligned application the padding of a type table entry can run into the following entries. An entry
  is read if and only if the padding is no longer than those entries (`TypeTable.AlignedEntryIff`), so the only
  entry of a table can be rejected (`FailingInputs.AlignedIsRejected`). For every other fixed-width encoding the
  bound on consumed bytes never rejects (`TypeTable.EntryIs`).
- The early exit of the call-site lookup needs the order of the table: on a table that decodes, it equals exhaustive
  search if and only if no entry in front of the first covering one starts after the counter
  (`Iterators.EarlyExitIff`); out of order it loses a covering entry (`FailingInputs.EarlyExitLoses`).
- A frame key alone does not identify a frame. A returning frame and an interrupted frame one byte above it share a
  key (`Stack.NeighboursAlias`), and then phase two marks the wrong one (`FailingInputs.ImpostorIsMarked`). The
  phases agree if and only if no younger frame that phase two can get to has the key (`Phases.AgreementIffFirst`);
  on even stack pointers keys are exact (`Stack.KeyIdentifies`).
- A resume whose own call site is a terminate site or malformed traps (`Scenario.ResumeTraps`), and it is the only
  resume after a successful search that does (`EndToEnd.MixedStackDelivers`).

## Model

| member | source | states |
|---|---|---|
| Leb128.ReadUleb | desenredo-lsda/src/table.rs:344-370 | the octet loop computes the closed form: leading continued bytes, exact group sum, unread suffix, and which of the two errors |
| Leb128.UlebIff | desenredo-lsda/src/table.rs:344-370 | a complete field is accepted iff it has at most ten groups and its sum is below 2^64; then the exact sum and the exact suffix, otherwise Overflow |
| Leb128.UlebUnfinished | desenredo-lsda/src/table.rs:344-370 | a field that never ends is Eof, or Overflow once the tenth group exceeds one or an eleventh byte is reached |
| Leb128.UlebInverts | desenredo-lsda/src/table.rs:344-370 | reading the shortest encoding of any u64 gives it back and leaves exactly what follows |
| Leb128.ReadSleb | desenredo-lsda/src/table.rs:374-404 | the octet loop with its shifts, ors and sign fill computes the two's complement sum of the groups wrapped to 64 bits |
| Leb128.SlebIff | desenredo-lsda/src/table.rs:374-404 | a complete field is accepted iff it has at most ten groups, with its two's complement sum wrapped to 64 bits and the exact suffix, otherwise Overflow |
| Leb128.SlebUnfinished | desenredo-lsda/src/table.rs:374-404 | a field that never ends is Eof, or Overflow once an eleventh byte is reached |
| Leb128.SlebInverts | desenredo-lsda/src/table.rs:374-404 | reading the shortest encoding of any i64 gives it back and leaves exactly what follows |
| Leb128.SpelledInverts | desenredo-lsda/src/table.rs:374-404 | a signed field of any width up to ten groups that holds the value is read back, longer than needed or not |
| Leb128.SlebExactIff | desenredo-lsda/src/table.rs:374-404 | every accepted field is congruent to its signed group sum modulo 2^64, and equal to it iff that sum fits an i64 |
| Leb128.SlebDropsHighBits | desenredo-lsda/src/table.rs:374-404 | an accepted ten-byte field whose sum is 2^64 reads as zero |
| Encoding.EncodingsMean | desenredo-lsda/src/table.rs:436-473 | the encodings by number: absent, the nine formats with the six applications, the indirect bit |
| Encoding.FormatsMean | desenredo-lsda/src/table.rs:407-420 | the fixed-width formats by number, in the byte order of the table, the signed ones in two's complement; any other number is refused |
| Table.ParsedIsBounded | desenredo-lsda/src/table.rs:519-593 | whatever header parses: its type table ends within the bytes, its encodings are valid, and the call sites are exactly the bytes in front of the action table |
| Table.StartsMean | desenredo-lsda/src/table.rs:622-670 | a chain opens iff it starts inside the bytes, a filter list iff it starts inside them or at their end |
| Table.LandingNotZero | desenredo-lsda/src/table.rs:705-735 | no site that the parser yields has a landing pad at address zero |
| Table.FoundLandingNotZero | desenredo-lsda/src/table.rs:678-701 | neither has the site that a lookup finds, so the zero-landing errors of both personalities are unreachable |
| Iterators.SiteIterator.Next | desenredo-lsda/src/table.rs:741-764 | takes the first of the remaining items off, and stays exhausted after the end or an error |
| Iterators.ChainIterator.Next | desenredo-lsda/src/table.rs:826-879 | takes the first of the remaining items off, and stays exhausted after the end or an error |
| Iterators.FilterIterator.Next | desenredo-lsda/src/table.rs:886-915 | takes the first of the remaining items off, and stays exhausted after the terminator or an error |
| Iterators.FindSiteAt | desenredo-lsda/src/table.rs:678-701 | the loop over a fresh iterator computes the early-exit search over all items of the table |
| Iterators.FindSiteMeans | desenredo-lsda/src/table.rs:678-701 | the lookup in every case, by the first item that is not passed by: its error, an overflowing end, the covering entry, or nothing |
| Iterators.FirstCover | desenredo-lsda/src/table.rs:678-701 | exhaustive reference search: the first covering entry, or that no entry covers |
| Iterators.EarlyExitIff | desenredo-lsda/src/table.rs:678-701 | on a table that decodes, early exit equals exhaustive search iff no entry in front of the first covering one starts after the counter |
| Iterators.SortedLookup | desenredo-lsda/src/table.rs:678-701 | on tables in start order, zero lengths included, the lookup is exhaustive first-match search |
| ChainFuel.Hop | desenredo-lsda/src/table.rs:826-879 | a followed link stays between the start of the action table and the end of the bytes |
| ChainFuel.Reach | desenredo-lsda/src/table.rs:826-879 | so does every position reached by any number of links |
| ChainFuel.LoopIffReach | desenredo-lsda/src/table.rs:826-879 | the loop error appears iff as many links can be followed as there is fuel, and then after one kind for each unit |
| ChainFuel.LongIsEndless | desenredo-lsda/src/table.rs:622-645 | following as many links as there are positions means following links for ever (pigeonhole) |
| ChainFuel.FuelIsExact | desenredo-lsda/src/table.rs:622-645 | a chain yields the loop error iff its links never end, and never more than len + 2 items |
| TailStability.NewTail | desenredo-lsda/src/table.rs:519-593 | a header that parses parses to the same tables with any bytes appended |
| TailStability.SitesTail | desenredo-lsda/src/table.rs:741-764 | call sites are read from their own bytes only |
| TailStability.ChainTail | desenredo-lsda/src/table.rs:622-645 | a chain that reads to its end reads the same with any bytes appended, although the fuel grows |
| TailStability.TypeTail | desenredo-lsda/src/table.rs:783-808 | a type entry that decodes decodes to the same target with any bytes appended |
| TailStability.FilterTail | desenredo-lsda/src/table.rs:653-670 | a filter list that reads to its end reads the same with any bytes appended |
| TypeTable.ScalarIsEntry | desenredo-lsda/src/table.rs:407-420 | a fixed-width scalar is read from exactly the first 2, 4 or 8 bytes in either byte order, sign-extended for the signed formats; Eof iff there are fewer |
| TypeTable.TargetMeans | desenredo-lsda/src/table.rs:436-473 | an encoded pointer is the scalar of its format, counted from nothing, its own field, the text or data base if there is one, or the function, by bits 4 to 6; the top bit makes it indirect; the sum is exact or Overflow |
| TypeTable.LandingMeans | desenredo-lsda/src/table.rs:520-533 | the landing base is the function, or any direct encoded pointer right behind the first byte; an indirect one is refused |
| TypeTable.EntryIs | desenredo-lsda/src/table.rs:783-819 | for fixed widths entry i is read from exactly the i-th group of bytes before the end; the address is the exact sum of the stored value and what bits 4 to 6 of the encoding count from, those very bytes for pc-relative ones; each error exactly when it occurs |
| TypeTable.EntriesKeepApart | desenredo-lsda/src/table.rs:783-808 | overwriting one entry changes no other |
| TypeTable.AlignedSkips | desenredo-lsda/src/table.rs:423-433 | alignment skips fewer than eight bytes and ends at a multiple of eight |
| TypeTable.AlignedEntryIff | desenredo-lsda/src/table.rs:783-808 | with the aligned application an entry is rejected if its padding runs past the entries after it, and is read behind the padding otherwise |
| RoundTrip.OffsetInverts | desenredo-lsda/src/table.rs:477-487 | every plain offset printed in a format that can spell it is read back, with the exact rest |
| RoundTrip.OffsetMeans | desenredo-lsda/src/table.rs:477-487 | an offset is read iff its encoding is one of the nine formats without application or indirection, and a negative value overflows |
| RoundTrip.LebInverts | desenredo-lsda/src/table.rs:407-420 | both LEB128 formats are read back on all u64 and i64 values |
| RoundTrip.SiteInverts | desenredo-lsda/src/table.rs:705-735 | a printed call-site record with any action offset is read back with its absolute landing pad and action, zero standing for none |
| ActionRecords.RecordInverts | desenredo-lsda/src/table.rs:842-858 | a printed action record with any self-relative link yields its kind and leads to exactly the record that it names |
| ActionRecords.ChainAlongLinks | desenredo-lsda/src/table.rs:622-645 | for any link targets the chain of any record yields exactly the kinds along its links: without error where they end, ended by the loop error iff they run in a circle |
| ActionRecords.WideLinksFit | desenredo-lsda/src/table.rs:842-858 | every choice of link targets can be printed in a table below 2^63 bytes |
| RoundTrip.HeaderInverts | desenredo-lsda/src/table.rs:519-593 | a printed header is read back, with the exact call-site bytes and the offset of the first action byte |
| RoundTrip.SitesInvert | desenredo-lsda/src/table.rs:741-764 | a printed call-site table with any action offsets yields exactly the printed entries and then stops |
| RoundTrip.TableRoundTrip | desenredo-lsda/src/table.rs:519-613 | for any site list and any action bytes, parsing the printed table gives back exactly its entries, landing pads and action offsets, and the first action byte |
| PrintedTypes.TypesInvert | desenredo-lsda/src/table.rs:783-808 | printed type entries are read back: the i-th value, counted from what bits 4 to 6 of the encoding say |
| PrintedTypes.TargetsInvert | desenredo-lsda/src/table.rs:783-808 | target addresses survive the type table: stored relative to their own field or to another base they are read back as exactly those targets, indirect iff the top bit of the encoding is set |
| PrintedTypes.CatchShowsTarget | desenredo-cxx/src/personality.rs:187-192 | a catch record shows the matcher exactly the type printed for its index |
| PrintedTypes.FiltersInvert | desenredo-lsda/src/table.rs:653-670 | printed filter lists are read back at their one-based indices |
| PrintedTypes.TypesRoundTrip | desenredo-lsda/src/table.rs:519-593 | a whole printed table gives back every type entry and every filter list |
| PrintedTables.LooksUp | desenredo-lsda/src/table.rs:678-701 | the lookup in a table printed in start order finds the first covering entry, and nothing where no entry covers |
| PrintedTables.RustDecides | desenredo-rust/src/action.rs:91-114 | printing, parsing, lookup and scan together: at every offset the Rust classification is the one the covering entry and its record were printed for, whatever the links |
| PrintedTables.CxxDecides | desenredo-cxx/src/personality.rs:233-338 | both scans at every offset, from the records along the links. Cleanup scan: what the entry was printed for, or the loop error on a circle. Asking scan: a handler iff there is a first accepted clause, with its printed discriminator as selector; nothing but cleanup iff the links end and all clauses are rejected; a failure iff it is that of the first record that breaks, or the loop error |
| RustScan.ScanIs | desenredo-rust/src/action.rs:91-114 | the pad comes from the covering call site and the kind from the sign of the first discriminator |
| RustScan.ScanMeans | desenredo-rust/src/action.rs:91-114 | the classification and the error in every case: site, landing pad, action, and the record there |
| RustScan.OnlyParseErrors | desenredo-rust/src/action.rs:79-114 | the empty-chain and zero-landing errors are unreachable |
| RustScan.ScanTail | desenredo-rust/src/action.rs:91-114 | a scan that succeeds is the same with any bytes appended to the table |
| CxxScan.Decided | desenredo-cxx/src/personality.rs:267-338 | every item in front of the deciding one contributes nothing, and the deciding one does |
| CxxScan.OpenMeans | desenredo-cxx/src/personality.rs:233-338 | what both scans open in every case, or with which error: the site, its landing pad, and the chain of its action |
| CxxScan.ScanSite | desenredo-cxx/src/personality.rs:267-338 | the loop over a fresh chain, with its three accumulators, computes the scan function of call site and chain |
| CxxScan.CleanSite | desenredo-cxx/src/personality.rs:233-264 | the loop over the whole chain computes the cleanup function of call site and chain |
| CxxScan.CleanAgrees | desenredo-cxx/src/personality.rs:233-338 | a scan that succeeds without selecting a clause gives the same action as the cleanup scan |
| CxxScan.SamePad | desenredo-cxx/src/personality.rs:233-338 | where both scans name a pad, it is the same pad |
| CxxScan.FirstMatchIff | desenredo-cxx/src/personality.rs:267-338 | a chain selects a handler iff it has a first accepted clause and all in front were asked about and rejected |
| CxxScan.HandlerIsFirstMatch | desenredo-cxx/src/personality.rs:267-338 | a scan selects a pad and selector iff they belong to the call site and to its first accepted clause |
| CxxScan.FailureIff | desenredo-cxx/src/personality.rs:267-338 | a chain fails with a failure iff its first item that breaks behind rejected ones has it: unreadable chain or type entry, no selector, or matcher failure |
| CxxScan.NothingIff | desenredo-cxx/src/personality.rs:267-338 | a chain selects nothing iff all its clauses are rejected, and then the cleanup records alone decide |
| CxxScan.HandlerRepeats | desenredo-cxx/src/personality.rs:347-375 | if the handler stage learns up to the deciding clause what the search learned, it selects the same handler; nothing is asked of later clauses |
| CxxScan.CacheRepeats | desenredo-cxx/src/personality.rs:87-110 | a matcher that accepts exactly the selector remembered from the search repeats its answers in that sense |
| CxxScan.SelectorIsDiscriminator | desenredo-cxx/src/personality.rs:196-207 | discriminator to kind to selector is the identity on every nonzero i64 but the minimum, which errors |
| CxxScan.PadsAreReal | desenredo-cxx/src/personality.rs:179-181 | neither scan can report a zero landing pad |
| CxxScan.CleanTail | desenredo-cxx/src/personality.rs:233-264 | a cleanup scan that succeeds is the same with any bytes appended to the table |
| CxxScan.ScanTail | desenredo-cxx/src/personality.rs:267-338 | for matchers that ignore bytes behind the table, an asking scan that succeeds is the same with any bytes appended, even if a later record is bad |
| Protocol.DecodeIff | desenredo-personality/src/protocol.rs:221-306 | a raw callback decodes into a phase iff it is coherent and its mask, with or without END, is one of exactly four |
| Protocol.DecodeErrs | desenredo-personality/src/protocol.rs:221-306 | why a callback does not decode: the first of the seven reasons that holds |
| Protocol.DispatchMeans | desenredo-personality/src/protocol.rs:319-357 | the reason code of every decision by its ABI number, fatal by the cleanup bit where nothing decodes, and the three registers an install writes |
| Protocol.DispatchDiscipline | desenredo-personality/src/protocol.rs:319-357 | a typed personality writes the context iff it answers INSTALL; HANDLER only while searching, INSTALL never then, CONTINUE never from a handler frame |
| Personalities.LsdaMeans | desenredo-cxx/src/personality.rs:395-422 | a frame has no table iff neither pointer nor bytes exist, and otherwise the one at its own address, parsed with the bases of the frame |
| Personalities.RustMeans | desenredo-rust/src/personality.rs:88-134 | each Rust decision iff the call site classifies so: claim on catch and filter, continue on nothing and cleanup; cleanup enters all pads but forced filters; the handler enters catch and filter pads; all else fatal |
| Personalities.RustKeepsPromise | desenredo-rust/src/personality.rs:88-134 | a Rust frame that let the search pass does not fail its cleanup, and one that claimed the exception installs its handler |
| Personalities.RustPads | desenredo-rust/src/personality.rs:88-134 | handler and normal cleanup name one pad; a frame handles iff it claimed; forced unwinding differs from cleanup exactly at filters, which it passes |
| Personalities.CxxMeans | desenredo-cxx/src/personality.rs:446-516 | each C++ decision iff a scan says so: claim and handler pad with selector by the asking scan, cleanup pad, forced or not, by the cleanup scan; all else fatal |
| Personalities.CxxKeepsPromise | desenredo-cxx/src/personality.rs:446-516 | a C++ frame that let the search pass does not fail its cleanup, whatever its matcher; one that claimed installs its handler if the matcher repeats the answers it gave |
| PrintedFrames.RustFrameDecides | desenredo-rust/src/personality.rs:88-134 | a Rust frame with a printed table: all phases by landing pad and sign of the first discriminator of the covering entry, fatal outside all entries |
| PrintedFrames.CxxFrameCleans | desenredo-cxx/src/personality.rs:466-490 | a C++ frame with a printed table enters exactly the printed cleanup pads, forced or not, whatever the matcher |
| PrintedFrames.CxxFrameCatches | desenredo-cxx/src/personality.rs:446-516 | it claims iff the links lead to an accepted clause, and its handler enters the printed pad with the printed discriminator |
| PrintedFrames.CxxFrameFails | desenredo-cxx/src/personality.rs:466-490 | it is fatal outside all entries, and its cleanup is fatal on a circle of links |
| Registers.State.Write | desenredo-unwind/src/arch/x86_64/state.rs:205-211 | makes exactly one modeled register available, and fails without effect on any other number |
| Registers.State.Clear | desenredo-unwind/src/arch/x86_64/state.rs:215-221 | makes exactly one modeled register unavailable, and fails without effect on any other number |
| Registers.State.Adjust | desenredo-unwind/src/arch/x86_64/state.rs:239-243 | moves the stack pointer modulo 2^64, or fails without effect when it is unavailable |
| Registers.State.Install | desenredo-unwind/src/arch/x86_64/state.rs:247-311 | succeeds iff all twelve required registers are known; then every register arrives with its value, unknown volatile ones as zero |
| Registers.RegistersMean | desenredo-unwind/src/arch/x86_64/state.rs:84-120 | by DWARF number: what a capture keeps with which values, and what an install demands and loads |
| CallFrame.Caller | desenredo-unwind/src/source.rs:259-330 | the in-place loop on a clone computes the row function, error cases included, and leaves the callee alone |
| CallFrame.LastRule | desenredo-unwind/src/source.rs:259-330 | the last rule for a register, if any rule names it |
| CallFrame.CallerIsSimultaneous | desenredo-unwind/src/source.rs:259-330 | success iff CFA and all rules evaluate on the callee; then every register has its rule's value there, else the CFA for RSP, nothing for RA, and the callee's value otherwise |
| RowMeaning.CallerMeans | desenredo-unwind/src/source.rs:259-330 | the row said of memory, expressions and the callee alone: the CFA counts from the register that the row names, every kind of rule gives its register what section 6.4.1 says, success iff all of them give something |
| RowMeaning.CallerErrs | desenredo-unwind/src/source.rs:259-330 | failure iff the CFA or the first rule that gives nothing fails, for exactly that reason |
| RowMeaning.UnwindsPrologue | desenredo-unwind/src/source.rs:259-330 | for any pushed registers, with the CFA over RSP or over a frame pointer, unwinding gives exactly the registers before the call |
| CallFrame.RelationMeans | desenredo-unwind/src/relation.rs:16-27 | the lookup address and the flag of both relations |
| CallFrame.InfoMeans | desenredo-unwind/src/source.rs:140-177 | the stack ends iff no return address is known or it is zero; otherwise the frame or the error is that of the call in front of it, or of the interrupted instruction |
| CallFrame.ResolveMeans | desenredo-unwind/src/source.rs:333-345 | a direct pointer is its address, an indirect one the word in memory there |
| CallFrame.RuleOrderIrrelevant | desenredo-unwind/src/source.rs:259-330 | with distinct rule registers, permuting the rules changes neither success nor result |
| CallFrame.CallerKeepsPreserved | desenredo-unwind/src/source.rs:259-330 | a row that marks no preserved register undefined keeps all of them available |
| CallFrame.CallerAddsByRule | desenredo-unwind/src/source.rs:259-330 | a volatile register becomes available only by a rule that defines it |
| Stack.KeyIdentifies | desenredo-unwind/src/cursor.rs:219-230 | on even stack pointers two frames have one key iff stack pointer and relation agree |
| Stack.NeighboursAlias | desenredo-unwind/src/cursor.rs:219-230 | without that, a returning and an interrupted frame one byte apart share a key |
| Stack.GrowingIsDistinct | desenredo-unwind/src/cursor.rs:219-230 | stack pointers that grow by two or more from frame to frame give distinct keys, whatever the relations |
| Stack.PreservedThroughout | desenredo-unwind/src/cursor.rs:157-175 | every frame of a gentle stack still knows all preserved registers |
| Stack.VolatileSetByRow | desenredo-unwind/src/cursor.rs:157-175 | a volatile register known in a frame was set by the row of a younger frame |
| Stack.InstallSucceeds | desenredo-unwind/src/runtime.rs:864-883 | after a personality's three writes and the adjustment, validation succeeds, with the exact registers of the landing pad |
| Stack.CapturedInstalls | desenredo-unwind/src/arch/x86_64/state.rs:84-120 | from a capture through any number of gentle callers an install succeeds; a volatile register arrives nonzero only if a row set it |
| Passes.WordsRoundTrip | desenredo-unwind/src/runtime.rs:554-594 | the two private words and the resume states correspond one to one |
| Walk.Cursor.Advance | desenredo-unwind/src/cursor.rs:157-175 | replaces registers and relation by the caller's, or changes nothing on error |
| Walk.Cursor.Key | desenredo-unwind/src/cursor.rs:219-230 | the stack pointer, one less modulo 2^64 in an interrupted frame; none when it is unavailable |
| Walk.Cursor.Set | desenredo-unwind/src/runtime.rs:320-326 | context writes in order, those to unmodeled registers ignored |
| Walk.AskFrame | desenredo-unwind/src/runtime.rs:784-811 | by the personality pointer of the frame and memory: one call to the routine it names directly or through its slot, none for a missing, unreadable or null one; no change to the cursor unless it installs |
| Walk.Search | desenredo-unwind/src/runtime.rs:814-838 | the phase-one loop on the mutated cursor computes the search over the list of frames, with the same calls in the same order |
| Walk.Normal | desenredo-unwind/src/runtime.rs:841-895 | the phase-two loop computes the pass over the list of frames: calls, landing registers or reason code |
| Walk.Force | desenredo-unwind/src/runtime.rs:898-964 | the forced loop computes the forced pass over the list of frames |
| Walk.Begin | desenredo-unwind/src/runtime.rs:630-645 | search from a copy, then the words, then phase two from the same root |
| Walk.Raise | desenredo-unwind/src/runtime.rs:653-663 | a fresh propagation, FATAL1 without any call for a null exception |
| Walk.ForcedUnwind | desenredo-unwind/src/runtime.rs:671-687 | writes stop function and parameter, then the forced pass; FATAL2 for a null exception |
| Walk.ResumeUnwind | desenredo-unwind/src/runtime.rs:695-717 | continues as the words say, leaves them as they are, and never returns a reason code |
| Walk.Rethrow | desenredo-unwind/src/runtime.rs:725-748 | starts a normal propagation afresh and continues a forced one |
| Phases.SearchVisits | desenredo-unwind/src/runtime.rs:814-838 | every frame in front of the found one was asked with SEARCH and passed; the found one claimed and has the key; the log holds exactly these exchanges |
| Phases.SearchReason | desenredo-unwind/src/runtime.rs:814-838 | a search that finds nothing is END iff every frame let the exception pass and the stack ended there, and fatal in phase one otherwise |
| Phases.BeginMeans | desenredo-unwind/src/runtime.rs:630-645 | such a raise leaves the words alone and returns that reason; any other writes zero and the key |
| Phases.NormalVisits | desenredo-unwind/src/runtime.rs:841-895 | consecutive frames, CLEANUP with HANDLER exactly at the handler's key, all but the last passed; the log holds exactly these exchanges |
| Phases.NormalOutcome | desenredo-unwind/src/runtime.rs:841-895 | FATAL2, or a landing pad at the last visited frame, which asked for it, with its registers |
| Phases.TwoPhaseAgreement | desenredo-unwind/src/runtime.rs:814-895 | if no younger frame has the key, phase two marks exactly the frame that the search picked and never visits an older one, whatever is answered in between |
| Phases.AgreementIffFirst | desenredo-unwind/src/runtime.rs:814-895 | without distinct keys: after a search that picked a frame, phase two marks exactly that frame and visits none behind it for all answers, iff no younger frame that it can get to has the same key |
| Forcing.ForcedTrace | desenredo-unwind/src/runtime.rs:898-964 | the exact sequence of calls: stop before each personality, END only at the end of the stack, no call after a refusal; END is the result iff stop accepted the end |
| Forcing.ForcedOutcome | desenredo-unwind/src/runtime.rs:898-964 | a forced pass ends in a landing pad at the last visited frame, which asked for it, with its registers, or in END or FATAL2; all frames before it passed |
| Forcing.ForcedMasks | desenredo-unwind/src/runtime.rs:898-964 | every call carries the same stop and parameter, FORCE and CLEANUP, never SEARCH or HANDLER, and END exactly without a frame |
| Runs.RunKeeps | desenredo-unwind/src/runtime.rs:554-594 | over every run of a raise and its resumes, on changing machines: the words stay zero and the phase-one key, no visit gets past the chosen frame, only that frame is told to handle, resumes never return |
| Runs.PadsMoveOn | desenredo-unwind/src/runtime.rs:841-895 | over a run landing pads never move back toward younger frames |
| Runs.NoFrameSkipped | desenredo-unwind/src/runtime.rs:841-895 | every frame up to a landing pad was visited by this entry or an earlier one |
| Runs.HandlerComesLast | desenredo-unwind/src/runtime.rs:841-895 | the handler's pad is at the frame with the key and ends the run; all younger frames were visited, and each that asked for a pad got its cleanup first |
| Runs.RethrowStartsRun | desenredo-unwind/src/runtime.rs:725-748 | rethrowing the exception of a normal propagation starts a new run with a handler of its own |
| Runs.ForcedRunKeeps | desenredo-unwind/src/runtime.rs:695-748 | over every forced run of resumes and rethrows in any order the words stay stop and parameter, each entry makes the calls of a forced pass with them, resumes end in a pad or a trap, rethrows end as the pass does |
| Scenario.HypothesesHold | desenredo-unwind/src/runtime.rs:630-717 | a machine, printed tables and typed personalities of a Rust and a C++ frame under which run, typing, unrolling, gentle rows and repeating matcher hold together, with a resume |
| Scenario.RunReachesHandler | desenredo-unwind/src/runtime.rs:630-717 | that raise enters the cleanup of the Rust frame, and its resume the handler of the C++ frame with the selector of its filter |
| Scenario.ResumeTraps | desenredo-unwind/src/runtime.rs:695-717 | resumed at a terminate site the same run traps |
| FailingInputs.EarlyExitLoses | desenredo-lsda/src/table.rs:678-701 | a parsed table and counter at which the early exit loses the covering entry |
| FailingInputs.AlignedIsRejected | desenredo-lsda/src/table.rs:783-808 | a parsed table whose one aligned type entry is rejected although its bytes are there |
| FailingInputs.ImpostorIsMarked | desenredo-unwind/src/runtime.rs:841-895 | a stack that unrolls on which the search picks the older frame and phase two marks the younger one |
| Callbacks.ViewMeans | desenredo-unwind/src/runtime.rs:461-490 | what a personality sees of a frame: return address, relation, code start, and the table it finds directly or through one word of memory; without a frame, zero and no table |
| Callbacks.RawMeans | desenredo-personality/src/protocol.rs:221-306 | a call is understood if and only if it carries version 1, the class in the header of its exception and a mask of one phase; another class is a mismatch |
| Callbacks.SameAddress | desenredo-personality/src/context.rs:84-94 | the address for the call-site search equals the address that selected the metadata of the frame |
| Callbacks.EveryCallbackDecodes | desenredo-personality/src/protocol.rs:221-306 | every personality call of every entry decodes without error into the phase of its mask, with that address |
| Delivery.TypedIsDisciplined | desenredo-personality/src/protocol.rs:319-357 | typed personalities and calm stop functions keep the discipline that the unwinder relies on |
| Delivery.Answered | desenredo-personality/src/protocol.rs:319-357 | in every phase, forced or not, the unwinder is told exactly what the policy of the frame decided |
| Delivery.SearchMeans | desenredo-unwind/src/runtime.rs:814-838 | a search of typed personalities ends at the first frame whose policy finds a handler, all in front having continued |
| Delivery.PassDelivers | desenredo-unwind/src/runtime.rs:841-895 | if the frames in front can be cleaned up and the handler's frame can be entered, phase two lands at exactly the first frame that decides on a pad, at that pad and with that selector |
| Delivery.RaiseDelivers | desenredo-unwind/src/runtime.rs:630-645 | once the search has found a handler, raising does not return: it lands at the first frame with a pad, the handler's at the latest |
| Delivery.ForcedDelivers | desenredo-unwind/src/runtime.rs:898-964 | with stop functions that accept, a forced pass lands at the first frame whose forced cleanup has a pad, is fatal exactly if a failing frame comes first, and returns END at the end of the stack if neither comes |
| EndToEnd.ResumeDelivers | desenredo-unwind/src/runtime.rs:695-717 | a resume lands again iff the frame it resumes from can be cleaned up, at the first frame with a pad, and traps otherwise |
| EndToEnd.Raise | desenredo-unwind/src/runtime.rs:653-663 | the raise method with typed personalities jumps to the pad of the first frame that decides on one, or returns what the search failed with |
| EndToEnd.Resume | desenredo-unwind/src/runtime.rs:695-717 | the resume method at any entry of a run jumps to the pad of the first frame that decides on one iff its own frame can be cleaned up, and traps otherwise |
| EndToEnd.ForcedUnwind | desenredo-unwind/src/runtime.rs:671-687 | the forced method with typed personalities and accepting stop functions ends as the first frame that does not let it go on decides, or where the stack does |
| EndToEnd.ForcedRunDelivers | desenredo-unwind/src/runtime.rs:695-748 | the same for every resume and rethrow of a forced run; a resume without a landing pad traps, a rethrow returns its reason |
| EndToEnd.MixedStackDelivers | desenredo-cxx/src/personality.rs:446-516 | for stacks of Rust and C++ frames with a repeating matcher at the selected frame only: after a successful search every entry lands at the first frame with a pad, except a resume from a terminate or malformed site, which always traps |
| Entering.PrintedCleanupEntered | desenredo-cxx/src/personality.rs:446-516 | in every entry of such a run a printed C++ cleanup in front of the handler is entered at its printed pad, unless a younger frame has a pad |
| Entering.PrintedCleanupForced | desenredo-cxx/src/personality.rs:446-516 | the same in forced unwinding |

## Left out

- Infinite stacks: the walks are modelled over finite stacks only, so nothing is said of metadata that sends a walk in circles.
- The end of a run: a cleanup pad that resumes into its own frame's pad again and again is not ruled out, because only the code in the landing pad decides that.
- Landing-pad code, catch and rethrow by C++ or Rust runtimes: they appear only as the gap between two entries.
- `trace`, `delete` and the C entry points around `Walk`: thin wrappers; the walk of `trace` has one callback and no phases.
- The register reads of an open context at the end of the stack, where RSP and the frame address read as zero: only a stop function could see them.
- `Cursor::step` and the `Frame` it reports: the walks use `current` and `advance`.
- CIE and FDE parsing, execution of call frame instructions and the DWARF expression evaluator: row lookup and expressions are functions of the machine.
- Type matching by run-time type information: the matcher is an arbitrary function, and it alone would read filter lists.
- CallFrame.RuleOrderIrrelevant: for rows with one rule for each register, as unwind rows have; for repeated rules `CallerIsSimultaneous` says that the last one counts.
- PrintedTypes.TypesRoundTrip: the printer leaves out the aligned application; `TypeTable.AlignedEntryIff` says what reading it does.
- Delivery.ForcedDelivers: where a stop function refuses, `Forcing.ForcedTrace` gives the calls and the fatal result, without the decisions of policies.
- Iterators.SiteIterator: iterating over the items of a table that an application keeps and inspects out of order is not modelled; each iterator has one owner.
- Big-endian hosts: personalities read little-endian tables, as on x86_64; the table reader itself is modelled for both byte orders.
- Capture and restore in assembly: a capture is a register image with only preserved registers, a restore is the end of an entry.
- Panic packets, exception allocation, RTTI wrappers, the macro crate, build scripts and the example worker.
