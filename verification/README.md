# Mac-ify in Dafny

Mac-ify loads Mach-O programs on Linux: it maps segments at a slide, runs the fixup bytecode of the
file, walks chained fixups in place, rewrites inlined stdio macros in the program's machine code,
builds the entry stack, and supplies a shim library underneath. This project models the parts of it
that compute something and proves what they compute. `dafny verify dfyconfig.toml` checks all of it.

| module | part of the system |
|---|---|
| `Memory`, `Options`, `Symbols` | byte memory, little-endian words, 64-bit wrap-around, optional values, symbol names |
| `Leb` | the LEB128 readers and the generator's encoder (section 7.6 of DWARF version 5) |
| `ChainHeader`, `ChainWalk`, `ChainEntries`, `ChainMemory`, `ChainAgree` | chained fixups: reading the tables, the two in-place walkers, which entries they reach, what they leave against a two-phase reading, and when they agree with each other and with the published layout |
| `Bind`, `BindStreams`, `BindDesugar`, `BindLoader` | the bind bytecode machine, what its streams bind, its macro opcodes, the generator's programs, the eager and lazy passes |
| `Rebase`, `RebaseStreams`, `Relocation` | the two rebase interpreters and what streams rebase; mapping a file at a slide and rebasing it |
| `X86` | a small processor: decoding and executing the instructions that the rewriters read and write |
| `Putc`, `PutcSlow`, `Getc`, `GetcClusters`, `GetcPass`, `GetcAgain`, `GetcTwoPhase` | the two in-place rewriters of inlined stdio macros |
| `EntryStack` | the entry stack and the register-loading walk over it |
| `LazyPublish` | lock-free publication of function-pointer tables, under a weak memory |
| `Shebang`, `Spawn`, `Attributes`, `AttributeValues` | script chains and their argv, the spawn file-action list, attribute packing |

How the model is set up:

- Memory is a map from addresses to bytes; an address never written reads as zero, and so does what lies
  past the end of a file buffer. Addresses are integers. Every place where the source works modulo 2^64 or 2^32 says so (`Wrap`, `% 0x1_0000_0000`).
- Code that works in place is a method over an `array`, or over a class field, with the source's loop.
  Each one is proved equal to a function of the old state, and the properties are proved of that function.
- `resolve_symbol`, the stat call, the file system and the region chosen by the kernel are parameters.
- In `X86` a program text and the data memory are separate, so a store never changes code. Only the
  instructions in the matched patterns and their replacements are decoded; anything else stops the run.

Where the code and its own documentation disagree, the model follows the code:

- The main chain walker puts `high8` at bit 43 (`src/fixups.c:668-671`). The published layout puts it in
  the top byte. `ChainAgree.RebaseLayoutIff` says exactly when that matters, and
  `ChainAgree.RebaseLayout64Iff` the same for the format whose targets are file addresses.
- `execute_binds` runs past DONE and resets only symbol, segment and offset (`src/fixups.c:133-146`), so
  expanding its macro opcodes can lose a reset (`BindDesugar.ResetCanBeLost`).
- The putc pass is documented as finding sites and patching them; in place, an earlier patch can change a
  later decision. `Putc.InPlaceIsTwoPhaseIff` gives the exact condition and `Putc.PassCanDiffer` a text;
  `Putc.SecondPassIdleIff` and `Putc.SecondPassCanChange` do so for a second pass.
- The near getc branch gets displacement plus one, which wraps at the largest displacement.
  `GetcPass.PassForcesSlowPath` gives the exact condition and `GetcTwoPhase.OverflowIsRewritten` a text.
- Chain entries may overlap. The walk then reads an entry it has partly overwritten;
  `ChainWalk.ReadsOriginalIff` and `ChainMemory.WalkMemoryIff` say when that goes unnoticed and
  `ChainWalk.OverlapBreaksTwoPhase` shows it.
- A recorded chdir or fchdir file action is never replayed. `Spawn.ReplayCompleteIff` says when it matters.
- The published import ordinals 0xF1 to 0xFA are special ones; the main walker takes them for libraries 241 to
  250 and treats only 0 and 0xFB to 0xFF as special (`ChainAgree.ImportFields`).
- The word compare after a putc's jg is matched by its opcode and the jle three bytes on, without a look at
  its operand byte (`src/main.c:1468-1469`); `PutcSlow.CompareMismatch` shows what else that matches.
- The returned-attributes set is built from one word for all four attribute groups, so bits of one group show
  up in another. `AttributeValues.ReturnedSetIff` says exactly when the set is right, and
  `AttributeValues.NameMisreported` shows a request for which it is not.
- A file name longer than 255 bytes is packed without a terminator (`Attributes.NameTerminatedIff`).

## Model

| member | source | states |
|---|---|---|
| `Leb.ReadUlebLoop` | src/fixups.c:46-56 | the loop computes the recursive reading, and its cursor never passes the end |
| `Leb.ReadSlebLoop` | src/fixups.c:58-72 | the same for the signed reader with its sign fill |
| `Leb.EncodeUlebLoop` | scripts/gen_macho.py:759-770 | the generator's loop emits the minimal unsigned encoding, for every natural number |
| `Leb.UlebRoundTrip` | src/fixups.c:46-56 | for every v below 2^64, wherever its encoding sits in any bytes, reading there gives v and consumes exactly the encoding |
| `Leb.SlebRoundTrip` | src/fixups.c:58-72 | for every signed 64-bit v, reading its standard signed encoding gives v and consumes exactly the encoding, including the tenth byte that carries only the sign |
| `Leb.UlebMeaning` | src/fixups.c:46-56 | from any bytes, minimal or not, ended or cut off: the value is the base-128 numeral of the bytes up to the first without the continuation bit, modulo 2^64, and the cursor is after them |
| `Leb.SlebMeaning` | src/fixups.c:58-72 | the same for the signed reader: less 128 to the number of bytes when there are at most nine and the last has bit 6, as a two's complement word |
| `Leb.MergeIsOr` | src/fixups.c:51 | in every state the loops reach, the sum used by the model is the bitwise OR of the shifted chunk |
| `Leb.SignFillIsOr` | src/fixups.c:68-70 | subtracting 2^shift is OR-ing in all the sign bits |
| `ChainWalk.CapNeverCuts` | src/fixups.c:597-687 | for every chain of a page, stride 4 included, the walk performs the writes of all the entries it reads, to the end of the chain: the 16384-step cap never cuts it, because a page is below 64K and each step moves at least 4 |
| `ChainWalk.ReadsOriginalIff` | src/fixups.c:598-687 | the walk reads every entry of a chain as it was mapped exactly when, wherever an overwritten entry has next = 1, the high half of what is written there equals the low half of its successor |
| `ChainWalk.WalkIsTwoPhase` | src/fixups.c:594-687 | when the overlapping halves agree (in particular when every non-zero next is at least 2), the in-place walk of a chain equals decoding the whole chain from the original bytes and then writing |
| `ChainWalk.WideNextSpaces` | src/fixups.c:598-687 | when every non-zero next is at least 2, no write reaches the entry read next, and the slots are pairwise disjoint |
| `ChainWalk.ApplyMeaning` | src/fixups.c:598-687 | disjoint slots: each holds what its original entry asks for, an out-of-range import leaves its slot alone, every other byte is unchanged |
| `ChainWalk.OverlapReadsOriginalIff` | src/fixups.c:676-687 | with next = 1, the walk reads the following entry as it was mapped exactly when the high half of the value just written equals that entry's low half |
| `ChainWalk.OverlapPair` | src/fixups.c:598-687 | on every chain whose first entry has next = 1 and is overwritten, the second entry as read in place has the high half of that write for its low half, and as read in two phases is the mapped one |
| `ChainWalk.OverlapBreaksTwoPhase` | src/fixups.c:598-687 | a chain with next = 1 on which, for both walkers and every load base, in-place and two-phase results are known, and differ at every load base below 2^47 |
| `ChainWalk.PagesTwoPhase` | src/fixups.c:554-688 | the same equality over all the pages of a segment, whose pages may be cut by the segment end |
| `ChainWalk.ImageTwoPhase` | src/fixups.c:510-689 | the same equality over all segments of an image: everything could have been decoded before anything was written |
| `ChainWalk.ImageWalkReads` | src/fixups.c:510-689 | for every image, whatever its chains and segments, the pass is exactly the writes of the entries it reads, none cut off |
| `ChainWalk.ImageOriginalIff` | src/fixups.c:510-689 | over all chains of disjoint segments, the pass reads every entry as it was mapped exactly when the overlapping halves agree in every chain it reaches |
| `ChainWalk.ImageResult` | src/fixups.c:533-542 | the main pass returns 0 exactly when every segment with starts has pointer format 2 or 6; the dylib pass always does |
| `ChainWalk.ImageWideDisjoint` | src/fixups.c:554-687 | wide chains in disjoint segments give pairwise disjoint slots across the whole image |
| `ChainWalk.ImageMeaning` | src/fixups.c:472-709 | the image after the pass, slot by slot and byte by byte, in terms of the image before it |
| `ChainEntries.EntriesIff` | src/fixups.c:594-687 | the decoded entries of a chain are the one sequence in which each entry is at the place that bits 51-62 of the one before it name, in strides of four, until one names none or a place that does not fit |
| `ChainEntries.PageIff` | src/fixups.c:555-595 | an entry is one of a page exactly when the start is not 0xFFFF, eight bytes from it fit page and segment, and it is on the chain from there |
| `ChainEntries.ImageIff` | src/fixups.c:510-689 | the entries of an image are exactly those on the chain of some page, whose start fits, of some segment that the pass gets to |
| `ChainEntries.StartIsEntry` | src/fixups.c:555-595 | for every segment reached and every page whose start fits, offset 0 included, the word at the start is an entry of the image |
| `ChainEntries.SlotAfter` | src/fixups.c:510-689 | what the pass leaves in the slot of any entry so reached |
| `ChainMemory.WalkMemoryIff` | src/fixups.c:594-687 | where overlapped entries are rebases, the in-place walk of a chain leaves the memory of the two-phase one exactly when the overlapping halves agree |
| `ChainMemory.ImageMemoryIff` | src/fixups.c:510-689 | the same for the whole pass over an image of disjoint segments |
| `ChainMemory.OverlapShows` | src/fixups.c:598-687 | the first overlap whose halves disagree leaves a byte of the overlapped slot that differs from the two-phase one |
| `ChainWalk.Process.WalkChain` | src/fixups.c:597-687 | the loop performs exactly the in-place walk |
| `ChainWalk.Process.WalkOnePage` | src/fixups.c:555-595 | a page without a start, or whose start does not fit before its end, is skipped; otherwise its chain is walked to the page or segment end |
| `ChainWalk.Process.WalkSegmentPages` | src/fixups.c:554-688 | pages are walked in order, each at its own base |
| `ChainWalk.Process.ExecuteChainedFixups` | src/fixups.c:509-689 | the loop over segments with its format check and result code is the specified image walk at the load base kept from an earlier call when that is not zero, or else at that of the first segment, which is then kept exactly when a page with a chain is reached |
| `ChainWalk.ReachesPageIff` | src/fixups.c:533-592 | a page with a chain is reached exactly when some segment has a start other than 0xFFFF and no segment up to it has a format other than 2 or 6 |
| `ChainWalk.Process.FindLoadBase` | src/fixups.c:583-592 | the load base is the address of the first segment that is not __PAGEZERO |
| `ChainWalk.Process.ProcessDylibChainedFixups` | src/macho_dylib.c:343-436 | the dylib loop is the image walk of the dylib decoder over slid segments, with no format check |
| `ChainWalk.Process.FindDylibLoadBase` | src/macho_dylib.c:327-339 | first slid segment that does not look like __PAGEZERO, and the slide itself when that is zero |
| `ChainWalk.LoadBasesAgreeIff` | src/macho_dylib.c:327-339 | the two passes use the same load base exactly when it is not zero or the slide is |
| `ChainWalk.LoadBaseFirst` | src/fixups.c:583-592 | the main load base is the address of the segment that only __PAGEZERO segments precede, and zero without one |
| `ChainWalk.DylibBaseFirst` | src/macho_dylib.c:327-339 | the dylib load base is the slid address of the segment that only segments at 0 larger than 2 GiB precede, and the slide when there is none or that is zero |
| `ChainHeader.RunMain` | src/fixups.c:472-709 | the main pass from the file on: each early return in its order, then the image walk over the tables read from the file |
| `ChainHeader.RunDylib` | src/macho_dylib.c:306-437 | the dylib pass from the file on, with its own early returns and its rule for a header without symbols |
| `ChainHeader.PassesAgree` | src/macho_dylib.c:306-437 | on one file with a symbol table, mapped at one place, with entries and imports on which the decoders agree, both passes leave the same memory, and the main one returns 0 exactly when the tables are empty or can be read |
| `ChainHeader.StartsRoundTrip` | docs/dyld/fixup-chains.h:58-72 | a segment's starts laid out as the header says, anywhere in any file, are read back: page size, format and every page start, which begin at byte 22 |
| `ChainHeader.TableRoundTrip` | docs/dyld/fixup-chains.h:49-54 | a whole starts table laid out as the header says, anywhere in any file, is read back segment by segment, with zero offsets for segments without fixups |
| `ChainHeader.ImportsRoundTrip` | src/macho_dylib.c:323-325 | an import table of 32-bit words is read back |
| `ChainHeader.HeaderRoundTrip` | docs/dyld/fixup-chains.h:37-46 | a header laid out as published, anywhere in any file, is read back field by field |
| `ChainHeader.FileRoundTrip` | docs/dyld/fixup-chains.h:37-72 | a file with header, starts table, imports and names laid out as published gives both passes those tables and names, and is accepted exactly when the range ends inside the file as the 32-bit sum says |
| `ChainHeader.EarlyReturns` | src/fixups.c:472-500 | no fixups or an empty range is success, a range past the end or another version is -1 for the main pass, and in all of these, as in the dylib pass without an offset, memory is left alone |
| `ChainAgree.RebaseAgreesIff` | src/fixups.c:662-671 | the two rebase formulas give the same pointer, for every load base, exactly when bits 36-50 of the entry are zero |
| `ChainAgree.BindAgreesIff` | src/macho_dylib.c:381-418 | the two bind decoders agree under every constant resolver exactly when bits 16-31 are zero or the entry is out of range for both |
| `ChainAgree.ChainAgrees` | src/macho_dylib.c:376-435 | the same for one chain, overlapping entries included |
| `ChainAgree.WalkersAgree` | src/macho_dylib.c:376-435 | given one load base and imports that resolve alike, both implementations return 0 and leave identical memory on every image, with any next fields and any segments, in which the binds that are read have a 16-bit ordinal and no addend and the rebases have bits 36-50 zero |
| `ChainAgree.RebaseLayoutIff` | docs/dyld/fixup-chains.h:162-169 | for PTR_64_OFFSET, a rebase entry packed as the header says is recognised with its next and becomes target plus high8 times 2^43 plus the load base, which is the pointer the header asks for exactly when high8 is zero |
| `ChainAgree.RebaseLayout64Iff` | docs/dyld/fixup-chains.h:162-169 | for PTR_64, whose targets the header makes file addresses, the code gives the pointer the header asks for exactly when the static base is high8 times (2^56 - 2^43), which for high8 zero means a static base of zero |
| `ChainAgree.BindLayout` | docs/dyld/fixup-chains.h:219-226 | a bind entry packed as the header says is recognised with its next; its import, packed as the header says, is looked up without its leading underscore, in the library it names or, for 0 and 0xFB to 0xFF, in all of them; the slot gets the address (or the stub's) plus the addend, or is left alone when out of range |
| `ChainAgree.ImportFields` | docs/dyld/fixup-chains.h:307-312 | an import word packed as the header says names its library and its string |
| `ChainAgree.DylibBindLayout` | src/macho_dylib.c:381-418 | a bind entry with a 16-bit ordinal and a 16-bit addend is recognised with its next; the dylib walker searches all libraries for the import's name without its underscore, and stores the address plus the addend, or the stub without one |
| `ChainAgree.DylibRebaseLayout` | src/macho_dylib.c:419-430 | an entry with a 43-bit target and the eight bits above it is recognised with its next and moved by the load base |
| `Bind.FetchAssembled` | src/fixups.c:127-263 | decoding an assembled instruction, anywhere in any bytes, gives that instruction back and stops right after it |
| `Bind.RunAssembled` | src/fixups.c:127-296 | interpreting assembled bytes is running the instructions they came from: same code, state and memory |
| `BindStreams.OpRuns` | src/fixups.c:132-289 | each instruction from any state, in terms of unbounded offsets: what it sets, which slots it binds to which word, and when it is refused |
| `BindStreams.WholeStreamBinds` | src/fixups.c:127-296 | any assembled stream, from the interpreter's start: return code and memory are what its instructions mean in order; library, type and addend outlive DONE, symbol, segment and offset do not |
| `BindStreams.FileBinds` | src/fixups.c:109-119 | the pass over a file: nothing for an empty range, -1 for one that ends past the file, otherwise the stream's meaning |
| `BindStreams.RequestsBind` | src/fixups.c:127-252 | two symbols given byte by byte, with a library and an addend written once and an offset reached through ADD_ADDR: each slot at its segment plus offset gets address (or stub) plus addend, also after DONE |
| `BindStreams.FormsBind` | src/fixups.c:194-289 | the other opcodes byte by byte: library and type immediates, the two binds that move on, and the repeat, each slot at the offset the earlier ones leave |
| `BindStreams.PutAllMeaning` | src/fixups.c:261-289 | each slot of a repeat that does not run into itself holds the word |
| `BindStreams.SpecialRefused` | src/fixups.c:156-158 | binding against any special library number fails and writes nothing |
| `BindStreams.BadByteFails` | src/fixups.c:160-294 | a byte from 0xD0 on, or a symbol with no NUL, returns -1 where it stands |
| `BindDesugar.TimesIsCopies` | src/fixups.c:261-289 | a repeated bind with skip is that many single binds with the skip as delta, including where it stops |
| `BindDesugar.ExpandExact` | src/fixups.c:190-289 | replacing one macro opcode by its expansion changes nothing of outcome, state or memory |
| `BindDesugar.DesugarExact` | src/fixups.c:127-296 | the same for whole programs across DONE marks; code and memory always agree, and the final state agrees exactly when no reachable DONE with something to reset is followed, to the end, by zero counts only |
| `BindDesugar.DesugarPreservesMeaning` | src/fixups.c:127-296 | on the bytes: the assembled expanded program returns the same code and leaves the same memory as the original, for every pointer-typed program with segments in range, and the same interpreter state under that exact condition |
| `BindDesugar.ResetCanBeLost` | src/fixups.c:133-146 | a three-instruction program whose expansion ends in a different interpreter state |
| `BindDesugar.TimesOneIff` | src/fixups.c:194-289 | the hypothesis is exact: a count of one equals the single form on every memory exactly when the type is the pointer type and the segment is recorded |
| `BindDesugar.TimesOneDiffers` | src/fixups.c:194-289 | outside that condition some memory tells the two forms apart |
| `BindLoader.BytecodeIsAssembly` | scripts/gen_macho.py:735-756 | the generator's byte string for one symbol is the assembly of its six instructions |
| `BindLoader.ConcatenatedIsAssembly` | scripts/gen_macho.py:735-756 | concatenated outputs are the assembly of the concatenated instructions |
| `BindLoader.EntryRun` | src/fixups.c:127-296 | one entry's instructions write its one pointer and go on past DONE, or return -1 with memory untouched when its fields name nothing bindable |
| `BindLoader.GeneratedRun` | src/fixups.c:127-296 | any list of generated entries is carried out in order up to the first that cannot be bound, with ordinal and segment as their four-bit fields read |
| `BindLoader.GeneratorRoundTrip` | scripts/gen_macho.py:735-756 | for any list of expressible entries, executing the concatenated bytecode returns 0 and performs exactly the requested pointer writes in order |
| `BindLoader.RangeRoundTrip` | src/fixups.c:109-119 | a bind range of a file that holds generated bytecode returns 0 and performs exactly the requested writes |
| `BindLoader.Loader.ExecuteBinds` | src/fixups.c:109-297 | an empty range, a range past the end as the 32-bit sum says, or exactly the specified interpretation of the range |
| `BindLoader.Loader.Interpret` | src/fixups.c:127-296 | the opcode loop leaves the result code and memory of the byte machine |
| `BindLoader.Loader.BindOne` | src/fixups.c:194-252 | one bind: a bad ordinal or segment stops with -1 and memory untouched; otherwise a pointer-typed slot gets the symbol's address, or the stub's when unresolved, plus the addend, and other types are skipped |
| `BindLoader.Loader.BindMany` | src/fixups.c:261-289 | the counted loop is the specified repetition |
| `BindLoader.Loader.BindOp` | src/fixups.c:194-289 | each binding opcode moves state, memory and cursor as specified |
| `BindLoader.SetOne` | src/fixups.c:132-192 | each setting opcode and DONE moves state and cursor as specified |
| `BindLoader.SetName` | src/fixups.c:160-175 | the symbol opcode: -1 without a NUL, otherwise the name cut to 255 bytes and the cursor past the NUL |
| `BindLoader.Loader.ExecuteLazyBinds` | src/fixups.c:440-457 | the lazy pass carries out the lazy range and restores all four saved range fields on every outcome |
| `Rebase.InterpretersAgree` | src/macho_dylib.c:222-289 | both interpreters perform the same memory updates on every stream that sets the pointer type and a segment before it first rebases, keeps that type and stays in the segment table, also one that stops at an unknown opcode |
| `Rebase.RunsAgreeFrom` | src/fixups.c:361-421 | the same for the list of rebased slots, from any pair of related states |
| `Rebase.RepeatAgrees` | src/fixups.c:387-415 | the repeat loops of both visit the same slots and end in related states |
| `RebaseStreams.FetchBytes` | src/fixups.c:361-416 | the published encoding of each instruction, anywhere in any bytes, is decoded back to it |
| `RebaseStreams.MainMeaning` | src/fixups.c:361-421 | any encoded instructions, followed by anything: the main interpreter rebases exactly the slots they mean, with offsets in closed form (count slots 8 plus skip apart), and goes on from where they leave the offset, or returns -1 at the first that rebases in no segment |
| `RebaseStreams.DylibMeaning` | src/macho_dylib.c:222-289 | the same for the dylib interpreter, which passes over segments there are not and ignores the type |
| `RebaseStreams.StreamEnds` | src/fixups.c:366-420 | a stream ends at its last byte, at a byte below 0x10, and with -1 at one from 0x90 on, which ends a dylib's too |
| `RebaseStreams.WholeStream` | src/fixups.c:329-424 | whole streams from each pass's own start: result code and slots |
| `RebaseStreams.FileRebases` | src/fixups.c:329-342 | the main pass over a file: nothing for an empty range, -1 for one that ends past the file, otherwise the slots the stream means |
| `RebaseStreams.SkippingRebases` | src/fixups.c:407-415 | byte by byte: count pointers, skip bytes apart, from an offset of a segment on, are exactly what both passes rebase |
| `Rebase.UntypedStreamDiffers` | src/macho_dylib.c:222-289 | a three-byte stream without a type on which the main interpreter rebases nothing and the dylib one does |
| `Rebase.UnplacedStreamDiffers` | src/macho_dylib.c:218-249 | a two-byte stream without a segment on which the main interpreter rebases the start of the first segment and the dylib one nothing |
| `Rebase.MainInTable` | src/fixups.c:344-359 | the main interpreter only ever touches slots of recorded segments |
| `Rebase.SameTargets` | src/macho_dylib.c:209-290 | a slot in slid segments is the slid address of the slot in static segments, modulo 2^64 |
| `Rebase.GeneratedRebases` | scripts/gen_macho.py:907-916 | the generated stream rebases exactly the requested run of consecutive pointers and returns 0, as its four-bit fields read |
| `Rebase.Decode` | src/fixups.c:361-421 | the opcode and operands at a cursor, and the cursor after them |
| `Rebase.Pass.RebaseSlot` | src/fixups.c:344-359 | one slot is raised by the slide; the slots done so far account for all of memory |
| `Rebase.Pass.RepeatMain` | src/fixups.c:387-415 | the repeat loop does the specified slots and fails exactly when the specification does |
| `Rebase.Pass.ExecuteRebases` | src/fixups.c:329-424 | an empty range, a range past the end as the 32-bit sum says, or the result code and memory of the interpretation |
| `Rebase.Pass.InterpretMain` | src/fixups.c:361-423 | the opcode loop: result code, slots in order, and final memory |
| `Rebase.Pass.RepeatDylib` | src/macho_dylib.c:243-285 | the dylib repeat loop does the specified slots |
| `Rebase.Pass.ProcessDylibRebases` | src/macho_dylib.c:209-290 | nothing without an offset or a size; otherwise slots in order and final memory |
| `Rebase.Pass.InterpretDylib` | src/macho_dylib.c:222-289 | the dylib opcode loop: slots in order, and final memory |
| `Relocation.MapAllSucceeds` | src/segments.c:440-560 | mapping a well-formed image succeeds and records one segment per command, so segment indices are load-command indices, and every section at its slid address |
| `Relocation.MappedInside` | src/segments.c:500-512 | every byte of a mapped segment is the file's byte at fileoff plus its offset below filesize, and zero above, whatever memory held before |
| `Relocation.MapMeaning` | src/segments.c:440-560 | one segment command in every case: full table, empty segment, __PAGEZERO, file part past the end, and otherwise every byte of memory, the record, the result code and each recorded section |
| `Relocation.MapInOrder` | src/segments.c:440-560 | commands run one after another, and a failure stops the load with what had been mapped |
| `Relocation.LoadedBytes` | src/segments.c:500-512 | the loaded and rebased image: outside the rebase slots each byte is its file byte or zero, and a slot in the file part holds the file's word plus the slide |
| `Relocation.MappedOutside` | src/segments.c:440-521 | no byte outside the slid segments changes |
| `Relocation.RebaseMeaning` | src/fixups.c:344-421 | disjoint slots each move by the slide exactly once, modulo 2^64, and nothing else changes |
| `Relocation.RelocationTheorem` | src/fixups.c:344-421 | loading at slide s and rebasing gives the slide-0 image shifted by s, from any two earlier memories: slots hold their slide-0 value plus s modulo 2^64, other mapped bytes are equal, nothing outside the shifted segments is written |
| `Relocation.ReservedRegion` | src/main.c:497-533 | whatever region the kernel reserved for the span, the computed slide puts every segment inside it and nothing outside it is written |
| `Relocation.SpanBounds` | src/main.c:497-517 | every counted segment lies between the scanned bounds |
| `Relocation.SpanTight` | src/main.c:497-517 | the span reaches every non-empty segment but __PAGEZERO, and its ends are ends of segments, the upper one in 64 bits |
| `Relocation.ScanSpan` | src/main.c:497-517 | the scan finds the lowest address and highest end of the segments that count |
| `Relocation.Loader.MapSegment` | src/segments.c:440-560 | one segment: skipped, refused as the 64-bit sum says, or copied, zero-filled and recorded with its sections, memory as specified |
| `Relocation.Loader.RecordSections` | src/segments.c:537-560 | sections are recorded slid and in order until the table is full |
| `Relocation.SectionsRecorded` | src/segments.c:537-560 | all sections are recorded when the table has room, and otherwise exactly as many as fit, with -1 |
| `Relocation.Loader.MapImage` | src/segments.c:440-521 | all commands in order, stopping at the first refusal |
| `Relocation.LoadImage` | src/main.c:758-760 | mapping all segments and then rebasing over the segments that were recorded; on a relocatable image that fits the tables the memory is the one the relocation theorem is about, and outside the rebase slots every mapped byte is its file byte or zero |
| `X86.FetchFrame` | src/main.c:309-338 | what an instruction decodes to depends on its own bytes only |
| `X86.ComparedOrders` | src/main.c:1463-1471 | after a compare, jle is taken exactly for signed less-or-equal and je exactly for equality |
| `Putc.ProloguesApart` | src/main.c:1421-1453 | two matched prologues share at most the displacement byte of the first |
| `Putc.PrologueSurvives` | src/main.c:1421-1510 | rewriting any set of other sites leaves a prologue and what follows it intact |
| `Putc.NoNewPrologue` | src/main.c:1421-1510 | no set of rewrites creates a prologue |
| `Putc.LabelStays` | src/main.c:1456-1473 | no set of other rewrites moves a site's slow label |
| `Putc.CandidateStays` | src/main.c:1421-1480 | after any set of rewrites the candidates are exactly the unrewritten ones, with their labels |
| `Putc.LabelBytes` | src/main.c:1479-1484 | rewrites change a label check only through the displacement byte of a rewritten site |
| `Putc.PassIsPatchAll` | src/main.c:1421-1510 | the in-place pass equals patching, all at once and from the original text, the set of sites it chose |
| `Putc.InPlaceIsTwoPhaseIff` | src/main.c:1421-1510 | the pass equals "find all sites in the original text, then patch them all" exactly when no candidate's label sits on a displacement byte whose rewrite flips the check |
| `Putc.IdleIff` | src/main.c:1421-1510 | a pass changes nothing exactly when the text has no site |
| `Putc.SecondPassIdleIff` | src/main.c:1421-1510 | a second pass changes nothing exactly when, in the original bytes, no passed-over candidate has for its label the displacement byte of a later picked site whose new displacement is a character load |
| `Putc.PickedIff` | src/main.c:1421-1510 | which sites the pass rewrites, decided from the original bytes alone |
| `Putc.SecondPassCanChange` | src/main.c:1421-1510 | a family of texts on which a second pass does change something |
| `Putc.RevivingTextExists` | src/main.c:1421-1510 | the family has a member |
| `Putc.CleanLabels` | src/main.c:1421-1510 | when no slow label falls inside a rewritten site, the pass is the two-phase one and is idempotent |
| `Putc.PassCanDiffer` | src/main.c:1421-1510 | a family of texts on which the in-place pass and the two-phase one differ |
| `Putc.FlippingTextExists` | src/main.c:1421-1510 | the family has a member |
| `Putc.RewrittenSiteRuns` | src/main.c:1421-1510 | in the final text every rewritten site, run from any state, jumps to its slow label and writes no memory; unless its first register field is esp it has the registers and flags the original has at its decision |
| `Putc.EspIsMismatch` | src/main.c:1421-1453 | with esp the pattern is matched falsely: the lea takes the opcode of the store for its displacement, so the store is never executed |
| `Putc.EspIsRewritten` | src/main.c:1421-1510 | a text with esp that the pass does rewrite |
| `Putc.PatchPutcMacros` | src/main.c:1421-1510 | the array after the scan is the specified pass, every access is in bounds, and the three counters are the numbers of rewritten sites, of prologues, and of prologues with a label that are not rewritten, in the original text |
| `Putc.ScanStep` | src/main.c:1421-1510 | each decision of the scan, prologue, label and rewrite, in terms of the original text |
| `Putc.ScanOne` | src/main.c:1421-1510 | the outcome at one position: no prologue, no label, unresolved, or rewritten exactly at a site of the current text |
| `Putc.Matches` | src/main.c:1421-1453 | the byte tests decide exactly the prologue pattern |
| `Putc.SlowLabel` | src/main.c:1456-1473 | the label computed is that of the jle, or of the check after the jg |
| `PutcSlow.PrologueIff` | src/main.c:1421-1453 | a prologue is matched exactly when its bytes are the five instructions for some registers, any but esp as the stream |
| `PutcSlow.SiteIff` | src/main.c:1421-1484 | a site is exactly such a prologue with one of the five tails that branch, inside the section and in reach of a byte, to mov edi,imm32 or movsx edi,al |
| `PutcSlow.DecisionRuns` | src/main.c:1456-1473 | the original text run from its decision: one to three instructions that leave registers and memory alone lead to the label exactly when the jle is taken, or the jg is not and the check after it holds, for each of the four checks; and otherwise past the check or where the jg leads |
| `PutcSlow.SlowPathKept` | src/main.c:1421-1510 | whenever the original takes its slow path, the rewritten text reaches the same label with the same registers, and has not written the stream's count |
| `PutcSlow.CompareMismatch` | src/main.c:1468-1469 | a compare with a register or a SIB byte, which the matcher takes for three bytes, leaves the processor one byte before or after the matched jle |
| `PutcSlow.PassBytes` | src/main.c:1491-1496 | the final text byte by byte: three NOPs, 0xeb and the distance to the label for each rewritten site, and the original everywhere else |
| `Putc.Rewrite` | src/main.c:1491-1496 | three NOPs over the store and a short jump over the branch |
| `Getc.DecGetcOp` | src/main.c:309-338 | the cursor code computes the specified decoding with all reads in bounds |
| `Getc.DecComplete` | src/main.c:309-338 | every way of writing the instruction (with or without REX, with or without SIB) is decoded back to it with its true length |
| `Getc.DecSound` | src/main.c:309-338 | whatever is decoded is written at that place in one of those ways |
| `Getc.DecIff` | src/main.c:309-338 | the decoder answers d exactly when d is written there, over all bytes and positions |
| `Getc.DecFetch` | src/main.c:309-338 | the processor executes the decoded instruction with the decoded length, plus an index register exactly when a SIB byte comes with REX.X |
| `Getc.ClusterShape` | src/main.c:1194-1240 | a matched cluster is five instructions in a row inside the section |
| `Getc.ClusterInsns` | src/main.c:1194-1240 | the processor executes exactly the matched load, lea, store and test |
| `Getc.ClusterBranch` | src/main.c:1226-1240 | and then exactly the matched short or near branch |
| `GetcClusters.ClusterIff` | src/main.c:1194-1240 | the matcher takes for a cluster exactly the load, lea, store, test and jle or jg in a row, for any registers and however each is written |
| `GetcClusters.MatchesIff` | src/main.c:1194-1240 | a text's matches are exactly its clusters with the lea from byte 5 on and more than twelve bytes before the end, of two at one lea the one that starts first |
| `Getc.BumpedValue` | src/main.c:1252-1265 | the rewritten near displacement is the old one plus one, and wraps only at 2^31 - 1 |
| `Getc.NewBranchRuns` | src/main.c:1249-1268 | the rewritten branch leads to the slow path from every state, or 2^32 below it when the displacement overflows |
| `Getc.OriginalRun` | src/main.c:1194-1274 | what the original cluster does from its load to its branch |
| `Getc.PatchedRun` | src/main.c:1194-1274 | a text carrying the patch, run from the load in any state, reaches the original slow path, never writes memory, and leaves registers and flags as the original has them at its branch |
| `GetcPass.LaterCluster` | src/main.c:1194-1274 | a cluster matched after a rewrite lies after it and shares only bytes the rewrite left alone |
| `GetcPass.ClusterFrame` | src/main.c:1194-1240 | a cluster is determined by its own bytes |
| `GetcPass.NextReached` | src/main.c:1194-1274 | one more rewrite keeps every earlier one and adds a cluster of the original text |
| `GetcPass.PassMeaning` | src/main.c:1194-1274 | everything the pass rewrote is a cluster of the original text, still carries its patch at the end, and no other byte changed |
| `GetcPass.PassForcesSlowPath` | src/main.c:1194-1274 | every rewritten cluster, run in the final text from any state, ends on the original slow path with memory untouched and the original's registers and flags, exactly when its displacement does not overflow |
| `GetcAgain.SecondPassIdle` | src/main.c:1194-1274 | after the pass no scanned position matches, so a second pass changes nothing, for every text |
| `GetcAgain.EarlierCluster` | src/main.c:1194-1274 | a cluster with an earlier lea than a rewritten one ends before the bytes that rewrite wrote, so later rewrites cannot create it |
| `GetcAgain.StaysUnmatched` | src/main.c:1194-1274 | a position passed over still has no match after all later rewrites |
| `GetcTwoPhase.FoundIsMatchesIff` | src/main.c:1194-1274 | the in-place scan rewrites exactly the clusters of the original text exactly when no two of them clash: the load of one in the rewritten displacement of another |
| `GetcTwoPhase.PassIsTwoPhase` | src/main.c:1194-1274 | without a clash every cluster of the original text carries its patch in the result and no other byte changed |
| `GetcTwoPhase.LaterInOriginal` | src/main.c:1194-1240 | of two clusters of one text the later one starts after the branch opcode of the earlier one |
| `GetcTwoPhase.ClashLosesCluster` | src/main.c:1194-1274 | a family of texts with two clusters of which the scan rewrites only one |
| `GetcTwoPhase.ClashTextExists` | src/main.c:1194-1274 | the family has a member |
| `GetcTwoPhase.OverflowIsRewritten` | src/main.c:1252-1265 | a text whose cluster is rewritten although its near displacement overflows |
| `GetcPass.PatchGetcMacros` | src/main.c:1194-1274 | the array after the scan is the specified pass, every access is in bounds, and the counter is the number of clusters rewritten |
| `GetcPass.MatchCluster` | src/main.c:1194-1240 | the matcher finds the cluster whose lea is here with the first load length that fits |
| `GetcPass.TryLoad` | src/main.c:1206-1240 | one load length is accepted exactly when all five instructions fit together |
| `GetcPass.RewriteNear` | src/main.c:1252-1265 | a near jle becomes a near jmp with displacement plus one and a NOP |
| `GetcPass.RewriteBranch` | src/main.c:1249-1268 | each of the four branch shapes is replaced in its own bytes only |
| `GetcPass.Rewrite` | src/main.c:1248-1268 | store and branch are replaced, nothing else |
| `EntryStack.EnterMain` | src/runtime.c:406-427 | for every argv and envp that fit, the walk over the built stack finds argc, NUL-terminated copies of every argv and envp string in order with their NULLs, and apple[0] equal to argv[0]; rsp is 16-byte aligned, pointers lie below the strings, both inside the mapping, and no byte outside it changes |
| `EntryStack.Stack.SetupStack` | src/runtime.c:59-107 | the builder leaves exactly the string area and the pointer block, and gives up exactly when argc is a million or more |
| `EntryStack.Stack.CopyStrings` | src/runtime.c:81-92 | strings land one after another and each recorded pointer is where its string starts |
| `EntryStack.Stack.PushBlock` | src/runtime.c:100-107 | argc, the two NULL-ended vectors and the apple vector form one contiguous block in that order |
| `EntryStack.StringSpace` | src/runtime.c:65-68 | the space computed is exactly what all the strings with their terminators take |
| `EntryStack.Layout` | src/runtime.c:59-98 | the pointer block of argc plus envc plus five words is 16-byte aligned and lies below the string area, which lies below the end of the mapping, each as high as its alignment lets it be |
| `EntryStack.RoomSuffices` | src/runtime.c:59-98 | 45 bytes beyond strings and pointers are always enough to fit |
| `EntryStack.Walk` | src/runtime.c:411-423 | the assembly loop stops right after the first NULL at or after envp |
| `EntryStack.BuiltArguments` | src/runtime.c:59-107 | registers at the four vectors of a built stack find every argument |
| `EntryStack.WalkStops` | src/runtime.c:416-421 | in a built stack the first NULL the walk meets is the one after the last environment string |
| `LazyPublish.SafeIff` | shim/shim.h:184-208 | over all numbers of threads and all interleavings, including several running init at once, every pointer read past the gate sees the looked-up value and follows a store of it, exactly because the flag is stored with release and loaded with acquire |
| `LazyPublish.ReadIsGood` | shim/io/io_internal.h:76-80 | the same for one read of one run, under a memory where a thread may read any message not older than its view |
| `LazyPublish.PublishedStep` | shim/io/flags.c:72-80 | every step keeps: a ready flag carries, and a thread past the gate has, a view in which all pointers are written |
| `LazyPublish.ValuesStep` | shim/io/flags.c:72-80 | every step keeps: a pointer's messages are its initial content or the one looked-up value |
| `LazyPublish.RecordedStep` | shim/io/flags.c:72-80 | every step keeps: each such message has a store in the trace |
| `LazyPublish.ValueKept` | shim/shim.h:200-203 | whatever the orderings, once a thread has seen a pointer written it sees that same value in every later read |
| `LazyPublish.LateReaderRuns` | shim/shim.h:184-199 | without one of the orderings, for every table size, a run in which a thread past the gate reads an unwritten pointer |
| `Shebang.ResolveEntry` | src/main.c:61-118 | the argv is the one-hop rewrite [interpreter, script, rest] applied once per hop, at most five times, cut to 1023 entries; without a hop it passes through unchanged; the target is the last hop's host path |
| `Shebang.ClipIff` | src/main.c:113-114 | the cut changes nothing exactly when the rewritten argv fits |
| `Shebang.HopsShape` | src/main.c:107-114 | iterating the one-hop rewrite gives the interpreters innermost first, then the script, then the other arguments |
| `Shebang.ArgvMeaning` | src/main.c:107-115 | the vector argument by argument, 1023 at most |
| `Shebang.FollowChain` | src/main.c:69-96 | the loop collects the interpreter tokens of the chain and stops at a Mach-O file, a non-script or five hops |
| `Shebang.TokensStop` | src/main.c:79-96 | fewer than the limit of hops means the target names no interpreter |
| `Shebang.FollowsChain` | src/main.c:69-96 | the tokens and the target are a chain: entry path (or its prefix copy when only that exists), then file by file the one its "#!" line names, in the prefix if it is there, until a file names none or five have been named |
| `Shebang.ChainUnique` | src/main.c:69-96 | there is no other such chain |
| `Shebang.BuildFront` | src/main.c:109-112 | the descending loop lays out the hops in reverse |
| `Shebang.BuildArgv` | src/main.c:109-115 | the whole vector, cut at the table size |
| `Shebang.ParseShebang` | src/main.c:31-50 | the three scans find the specified token of the first 511 bytes |
| `Shebang.TokenIff` | src/main.c:31-50 | a token is found exactly when the line has one after "#!" and blanks, and it is that one, ended by a space, line end or NUL |
| `Spawn.FileActions.Append` | shim/shim_spawn.c:150-154 | the list stays acyclic, head to tail along next, counted, and its contents grow by one at the end |
| `Spawn.Init` | shim/shim_spawn.c:117-125 | a fresh empty list, or the error for a null handle or no memory |
| `Spawn.Add` | shim/shim_spawn.c:143-175 | the action is appended, or nothing changes and the error says why |
| `Spawn.AddWithPath` | shim/shim_spawn.c:177-221 | the same for the calls that take a path, which refuse a null one |
| `Spawn.Replay` | shim/shim_spawn.c:347-360 | exactly the close, dup2 and open actions are issued, in insertion order |
| `Spawn.KeepMeaning` | shim/shim_spawn.c:347-360 | each close, dup2 and open is issued as it is, in its place; a change of directory leaves nothing and stops nothing |
| `Spawn.ReplayCompleteIff` | shim/shim_spawn.c:347-360 | nothing recorded is lost in the replay exactly when no chdir or fchdir was recorded |
| `Spawn.Destroy` | shim/shim_spawn.c:127-141 | every node is released exactly once, in order, and the handle is cleared |
| `Spawn.Session` | shim/shim_spawn.c:117-239 | any sequence of calls, failed ones and ones refused for a null path among them, then replay and destruction: the result codes, what is issued and how many nodes are released |
| `Spawn.SucceededMeaning` | shim/shim_spawn.c:143-221 | each call, wherever it comes, adds its action when it has one and memory, and otherwise nothing |
| `Attributes.GetAttrList` | shim/io/attrlist.c:327-352 | each error in its order, ERANGE exactly when the size query exceeds the buffer; on success the first word is that size, reading by the attribute list alone returns the packed fields in order, the returned set is in its place when asked for, and nothing beyond the size is written |
| `Attributes.FillTable` | shim/io/attrlist.c:180-325 | the same for the packing itself |
| `Attributes.Fill` | shim/io/attrlist.c:180-325 | the packed buffer and its size; on ERANGE the buffer holds exactly the fields before the one that did not fit |
| `Attributes.FilledBuffer` | shim/io/attrlist.c:180-325 | length word, read-back in packing order, the returned-set region, and the untouched rest, for any list of fields |
| `Attributes.HoldsReads` | shim/io/attrlist.c:187-300 | a buffer holding the fields' bytes reads back as the fields, names through their references |
| `Attributes.PackFrame` | shim/io/attrlist.c:187-300 | packing writes only inside the packed range |
| `Attributes.ExpectedSlots` | shim/io/attrlist.c:187-300 | the layout a reader expects depends on the attribute list alone, not on the file |
| `Attributes.Aligned` | shim/io/attrlist.c:117-300 | every field starts on a four-byte boundary |
| `Attributes.NameTerminatedIff` | shim/io/attrlist.c:194-209 | the copied name ends in NUL exactly when it was at most 255 bytes |
| `AttributeValues.RequestedBits` | shim/io/attrlist.c:187-300 | each of the 23 attributes is packed exactly when its own bit of its own group was set |
| `AttributeValues.NameAndType` | shim/io/attrlist.c:194-225 | name, device, file system, type and tag, as a caller decodes them |
| `AttributeValues.Times` | shim/io/attrlist.c:226-238 | the four times as decoded seconds and nanoseconds, the creation time being the change time |
| `AttributeValues.Identifiers` | shim/io/attrlist.c:239-250 | Finder information, file and parent identifiers |
| `AttributeValues.SizesAndLinks` | shim/io/attrlist.c:251-300 | volume, directory and file attributes as decoded numbers |
| `AttributeValues.Capabilities` | shim/io/attrlist.c:255-267 | of the eight capability words the format words say case sensitive and valid, the rest are zero |
| `AttributeValues.VTypeIs` | shim/io/attrlist.c:130-142 | the vnode type for each file type of the mode |
| `AttributeValues.ReportedWords` | shim/io/attrlist.c:304-322 | the four words of the returned set, bit by bit of the words asked |
| `AttributeValues.ReturnedSetIff` | shim/io/attrlist.c:304-322 | the returned set reports exactly what was packed exactly when no name, device, file system, type or creation time was asked for, volume information was, and the low two directory and file bits agree |
| `AttributeValues.NameMisreported` | shim/io/attrlist.c:304-322 | a request for the name whose returned set lacks it and has three attributes that were not packed |
| `AttributeValues.SetDecodes` | shim/io/attrlist.c:304-322 | the 20 bytes decode to those words and a zero |

## Left out

- Faults and page protection: mapping, mprotect and unmapped addresses; every access to `Mem` succeeds.
- The load commands come already parsed.
- The mapping strategies behind a segment (MAP_FIXED, probing, the non-PIE fallback).
- Accounting of unresolved symbols and all diagnostics; the stub address itself is modelled.
- `process_dylib_binds`, `macho_load_dylib` and `map_dylib_segments`: they differ from the main image by design, or depend on the order of recursive loading.
- The EOF-check rewriter of `src/main.c`, the per-page unprotect around each rewrite, and fat-slice selection.
- LEB128 runs of more than ten bytes: C leaves the shift undefined; `Leb` drops such chunks.
- Relocation.Loader.MapSegment: the copied fields of a section are one opaque value, and copies do not wrap at the end of the address space.
- ChainAgree.WalkersAgree: takes imports whose named library gives the address that a search of all libraries gives, because the dylib walker ignores the library.
- Putc.RewrittenSiteRuns: says nothing of registers for a first register field of esp, where the matched bytes are other instructions (`Putc.EspIsMismatch`).
- PutcSlow.SlowPathKept: takes a word compare of three bytes and a first register other than esp, because elsewhere the matched bytes are other instructions (`PutcSlow.CompareMismatch`, `Putc.EspIsMismatch`).
- EntryStack.EnterMain: excludes argc of zero, where the source reads a null argv[0].
- EntryStack.Walk: takes a bound on the distance to a NULL, without which the assembly loop does not end.
- LazyPublish: a wrapper's look at its own pointer before the gate (`shim/io/flags.c:83-85`) is not part of the model; plain pointer stores are treated as relaxed atomic ones; load buffering is not modelled.
- Spawn.Destroy: freed nodes are listed; the freed memory itself is not modelled.
- Attributes.Fill: the supported attributes are a table in packing order instead of a sequence of conditionals.
- Shebang: whether a file is Mach-O is given, not read from its magic number; path lengths never reach the 4096-byte buffers; the file system is a fixed map during a call.
- Signals, GS base, comm page, exec layer, Objective-C and CoreFoundation stubs, path prefixing, errno and termcap tables.
