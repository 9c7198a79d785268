# Verified model of libunwinder's unwind-info pipeline

libunwinder unwinds the stack of another process. It finds the unwind information of an
instruction address in `.eh_frame_hdr` and `.eh_frame`, parses it once, caches it per module
and hands libunwind a ready-made descriptor; for code without unwind tables it walks frame
pointers. This project models that pipeline in Dafny and proves what it promises.

The byte readers, the two entry parsers, the table lookup and the whole-function lookup are
pure functions over byte strings (`Bytes`, `Leb128`, `PointerEncoding`, `Entries`,
`EhFrameTable`, `FunctionLookup`). The mutable parts are modelled in their own form and proved
against those functions: the `Cursor` class with its running position and bit-or loops
(`CursorParser`), the binary search loop, the module registry object (`ModuleSets`), the
per-module cache (`FunctionCache`), the callback context (`Callbacks`), the register files
(`X86_64`, `Aarch64`) and the frame iterator (`Unwinder`).

The main results:

- **Whole-image round trip.** Print any `.eh_frame` layout, with FDEs that share CIEs, in any file
  order and with gaps (32- or 64-bit lengths, CIE versions 1, 3 and 4, any augmentation over R, L,
  P, S, B, G, any supported pointer encodings), and a header table over it, load a module from the
  two sections at any address, and ask about any address: the lookup returns the printed function
  covering it, with every field, or a miss.
- **The lookup refines a linear scan** of the listed functions, for every address.
- **The cache is invisible under concurrency**: in every interleaving of threads at lock
  granularity each call returns what the uncached parser returns, and the cache-only signal
  query is right. In sequential runs each function is parsed at most once. For sorted tables the
  cache is invisible if and only if no two listed functions overlap.
- **Every run of the frame iterator**, over any registry, whatever libunwind does and whatever
  other threads insert into the shared caches, keeps right caches right. A yielded address is then
  an instruction pointer if and only if a signal trampoline covers the frame before it and is
  cached by then, which a step that asks for proc info ensures. A step that never asks makes it
  fail; a concrete run shows it. Where the walk meets no tables it is the frame-pointer walk, call
  by call.
- **Position independence**: loading the image `k` bytes higher moves every answer by `k`; the
  bytes say which of the personality and LSDA pointers move along.
- **The registry's two indices stay consistent** over every run of add and remove; `access_mem`
  answers instruction reads from the mirror without calling the stack reader.
- **The frame-pointer walk terminates** for any stack reader, with an explicit bound, and is
  complete: over any rising chain of frame records in memory it yields every return address in
  order and then the end.
- **What is refused and how**: for every byte string and every address, which headers, CIEs, FDEs
  and lookups are accepted, and which error each of the others gets.

Conventions. `usize` and `u64` are both 64 bits wide. Sections are immutable byte strings. The
subtraction that computes an instruction length wraps, as in a release build (a debug build
panics there); `Entries.CieInstructions` and `Entries.UnsizedFdeInstructions` say exactly when it
does, and `DeclaredLength` shows that the declared length alone decides. A stack reader is an
arbitrary function of all earlier requests and the address, so it may be stateful and
inconsistent. A libunwind step is an oracle: its result, the memory it asks for and whether it
asks for proc info are arbitrary. Other threads are one too: they may store any parse of any shared
module before each signal query.

Kept as the code has it: an `.eh_frame_hdr` count in a 2-byte or signed 8-byte format is reported
as truncated rather than unsupported; a raw zero pointer is accepted even with an unsupported
application; personality pointers are resolved against zero text, data and function bases; the
declared length of a CIE's augmentation data is ignored, so that padding in it is taken for
instructions; and the signal query reads the cache alone, so that a libunwind step that recognises
a sigreturn stub by itself (vendor/libunwind-dist/src/aarch64/Gstep.c:607-609) leaves it unseen.

## Model

| member | source | states |
|---|---|---|
| Words.OrIsSum | src/dwarf.rs:128 | or-ing a value shifted above all bits present is addition |
| Leb128.UlebMeaning | src/dwarf.rs:123-140 | for every byte string: accepted iff a byte without continuation bit occurs among the first ten; the value is the sum of the 7-bit groups modulo 2^64; a continuation bit on the tenth byte is an overflow error at that position, a string that ends before is truncated there |
| Leb128.SlebMeaning | src/dwarf.rs:142-162 | the signed reader accepts the same strings and moves alike; under ten groups the value is two's complement in that many bits, ten groups are the 64 low bits |
| Leb128.UlebRoundTrip | src/dwarf.rs:123-140 | every u64 survives encode then read, whatever follows, and the cursor moves by the encoded length |
| Leb128.SlebRoundTrip | src/dwarf.rs:142-162 | every i64 survives encode then read, whatever follows |
| PointerEncoding.PointerRoundTrip | src/dwarf.rs:192-265 | for every supported format and application: encoding a target against its base and reading it back moves the cursor by exactly the encoded width and yields the target iff the difference is nonzero or the target is zero |
| PointerEncoding.RefusedWithoutReading | src/dwarf.rs:200-212 | omit and disallowed indirect pointers, and only they, are refused as such, with the cursor still; an accepted indirect pointer reads as zero |
| Refusals.PointerAccepted | src/dwarf.rs:192-265 | a pointer is accepted iff its encoding is neither omitted nor a disallowed indirect one, its raw word is there, and a present direct word has a supported base |
| Refusals.PointerRefusals | src/dwarf.rs:218-262 | a missing raw word is reported as it is, an unsupported application after the word |
| Refusals.RawOutcome | src/dwarf.rs:218-234 | the raw word by format, with its width and sign extension, or truncated, or the format refused |
| Refusals.WordOutcome | src/dwarf.rs:75-121 | a fixed-width word is its little-endian bytes iff it fits, otherwise truncated with what was needed |
| Refusals.HeadOutcome | src/dwarf.rs:299-311 | the length field: the end of the entry for either size, truncation and overflow |
| Refusals.CieFieldsRefusals | src/dwarf.rs:327-361 | an unknown version, an unterminated string and wrong sizes in version 4 are refused, each at its position |
| Refusals.CieStringAccepted | src/dwarf.rs:327-361 | accepted fields have a known version, the string up to its NUL and, in version 4, sizes 8 and 0 |
| Refusals.CieNumbersAccepted | src/dwarf.rs:363-371 | then the two alignments and the return column, one byte in version 1 and LEB128 otherwise |
| Refusals.AugmentationOutcome | src/dwarf.rs:373-409 | an empty string sets nothing, a string without leading z is refused at its start, after a z the letters are read |
| Refusals.UnknownLetter | src/dwarf.rs:380-403 | the first unknown letter reached is refused where its data would start |
| Refusals.LettersAreKnown | src/dwarf.rs:380-403 | accepted augmentations consist of known letters |
| Refusals.CieOutcome | src/dwarf.rs:288-436 | a CIE is accepted iff its length, zero id and fields are and it ends inside the section; otherwise the first failure is reported |
| Refusals.FdeAugmentationOutcome | src/dwarf.rs:514-548 | sized FDE data is accepted iff it ends within the entry and the LSDA within it; each of the other cases has its error |
| Refusals.FdeOutcome | src/dwarf.rs:463-570 | an FDE is accepted iff its length, nonzero CIE pointer, start, range and data are and it ends inside the section; otherwise the first failure is reported |
| Entries.SizedFdeInstructions | src/dwarf.rs:520-569 | for every byte string: a sized FDE's instructions start at the end of the augmentation data, as the length after the range declares it, and run exactly to the entry end, inside the section |
| Entries.CieInstructions | src/dwarf.rs:411-422 | a CIE's instructions start where its fields end, and their range is the rest of the entry, and stays in the section, iff the declared length reaches that point |
| Entries.UnsizedFdeInstructions | src/dwarf.rs:550-561 | the same exact condition for an FDE without sized augmentation data; with fixed-width pointers: iff the declared length is at least the CIE pointer plus two pointers |
| DeclaredLength.LengthDecidesCie | src/dwarf.rs:288-436 | the same CIE bytes under any other declared length: it parses iff that length stays in the section, every field is the same, and the instruction range is right iff the length reaches the end of the fields |
| DeclaredLength.LengthDecidesFde | src/dwarf.rs:463-570 | the same for an FDE without sized augmentation data |
| DeclaredLength.CieBodyLocal | src/dwarf.rs:313-403 | the fields of a CIE and their end do not depend on any byte before them |
| Entries.OverrunParses | src/dwarf.rs:411-422 | a concrete CIE whose fields overrun its length parses with a wrapped instruction length |
| Entries.OverrunFdeParses | src/dwarf.rs:550-561 | a concrete FDE without sized data whose pointers overrun its length parses with a wrapped instruction length |
| CursorParser.Cursor.ReadU8 | src/dwarf.rs:61-73 | reads one byte or reports truncation, against the pure reader |
| CursorParser.Cursor.ReadWord | src/dwarf.rs:75-121 | reads a little-endian word and advances, or leaves the cursor and reports what was needed |
| CursorParser.Cursor.ReadUleb128 | src/dwarf.rs:123-140 | the shift-and-or loop computes the group sum modulo 2^64, with the same position and errors |
| CursorParser.Cursor.ReadSleb128 | src/dwarf.rs:142-162 | the signed loop with its or-ed sign extension computes the two's complement value |
| CursorParser.Cursor.ReadEncodedPointer | src/dwarf.rs:192-265 | the imperative pointer reader agrees with the pure one in value, error and position |
| CursorParser.Cursor.ReadAugmentationString | src/dwarf.rs:335-348 | scans to the terminating NUL |
| CursorParser.Cursor.ReadAugmentationData | src/dwarf.rs:373-403 | the loop over augmentation letters, one local per letter, agrees with the recursive reading |
| CursorParser.Cursor.ReadFdeAugmentationData | src/dwarf.rs:514-548 | the sized augmentation data of an FDE, its three bounds checks and the jump to its end |
| CursorParser.ParseCieEntry | src/dwarf.rs:288-436 | `parse_cie` on a cursor equals the pure parser, errors included |
| CursorParser.ParseFdeEntry | src/dwarf.rs:463-570 | `parse_fde` on a cursor equals the pure parser, errors included |
| Printer.CieRoundTrip | src/dwarf.rs:288-436 | a CIE printed at any offset between any bytes parses back to every field; its instruction range delimits what follows the letters' data, which is exactly the printed instructions iff the augmentation data has no padding |
| Printer.FdeRoundTrip | src/dwarf.rs:463-570 | the same for an FDE under any configuration, with or without sized data and LSDA |
| Printer.LettersRoundTrip | src/dwarf.rs:380-403 | any sequence of augmentation letters with their data is read back left to right |
| Stability.CieStable | src/dwarf.rs:288-436 | a successful CIE parse is unchanged by appended bytes |
| Stability.FdeStable | src/dwarf.rs:463-570 | a successful FDE parse is unchanged by appended bytes |
| Stability.NeverBothKinds | src/dwarf.rs:313-325 | no offset parses both as a CIE and as an FDE |
| EhFrameTable.ParseHeader | src/eh_frame_table.rs:123-209 | the header parser with its running cursor equals the pure parser, errors included |
| EhFrameTable.AcceptedIff | src/eh_frame_table.rs:123-209 | a header is accepted iff it begins with 1, a fixed-width pointer encoding, a udata4, sdata4 or udata8 count encoding and 0x3b, and pointer, count and 8 bytes per counted entry fit; the table is then there |
| EhFrameTable.RefusedEarly | src/eh_frame_table.rs:123-160 | a short header, another version, an unsupported or truncated pointer, each with its error |
| EhFrameTable.RefusedLate | src/eh_frame_table.rs:160-202 | an unsupported or truncated count, another table encoding, a table that does not fit, each with its error |
| EhFrameTable.AcceptedTableIsInside | src/eh_frame_table.rs:194-202 | whatever count an accepted header declares, sign-extended or huge, the table lies inside the bytes |
| EhFrameTable.LookupLoop | src/eh_frame_table.rs:220-267 | for any table the binary search loop equals the recursive search, except that it indexes out of bounds exactly when the table's extent wraps around to an end inside the bytes |
| EhFrameTable.LookupOfAccepted | src/eh_frame_table.rs:220-267 | for any table of an accepted header, sorted or not: a hit starts at or below the address and is last or followed by an entry above it; a miss means an empty table or a first entry above the address |
| FunctionLookup.LookupRefinesScan | src/callbacks.rs:116-251 | on a well-formed section, header search, CIE and FDE decoding and range check equal a linear scan of the listed functions, for every address |
| FunctionLookup.LookupSucceedsIffCovered | src/callbacks.rs:228-251 | success iff a listed function covers the address, with that function's details; the only failure is a lookup miss |
| Refusals.LookupOutcome | src/callbacks.rs:116-251 | every outcome of a lookup in any image: missing sections, a header miss, an FDE before or past the section, an unreadable CIE or FDE, a range that does not cover the address, or the details |
| Refusals.CieOffsetOutcome | src/callbacks.rs:161-201 | the distance stored in an FDE counts back from its own position to the CIE; truncated and underflowing pointers are refused |
| FunctionLookup.LookupStable | src/callbacks.rs:116-251 | a successful whole-function lookup is unchanged when `.eh_frame` grows |
| FunctionLookup.PairIsTwoEntries | src/callbacks.rs:161-201 | the CIE and the FDE of a decoded function are different entries |
| ImagePrinter.HeaderRoundTrip | src/eh_frame_table.rs:123-209 | a printed header, in any accepted pointer and count encoding, parses to the printed table |
| ImagePrinter.PrintedImageIsWellFormed | src/callbacks.rs:116-251 | a printed image is well formed and its table lists exactly the printed functions, whatever CIEs they share |
| ImagePrinter.LoadedImage | src/module.rs:554-646 | a module made from printed sections has no header error and is the printed image at the place where each section is as far from the load base as it was linked from the link base |
| ImagePrinter.LoadedLookup | src/module.rs:554-646 | parts to answer: in a module made from printed sections and placed by those distances, any address yields the printed function covering it or a miss |
| ImagePrinter.PrintedCacheIsInvisibleIff | src/callbacks.rs:82-114 | for a printed table in address order the cache is invisible in every run iff no printed function reaches past the start of the next |
| ImagePrinter.OverlappingImage | src/callbacks.rs:94-113 | a concrete printed image, sorted and with two overlapping functions, for which the cache gives another answer than the parser |
| ImagePrinter.PrintedLookup | src/callbacks.rs:116-251 | looking up any address in a printed image returns the printed function covering it or a miss |
| ImagePrinter.PrintedDescriptor | src/dwarf.rs:579-611 | the descriptor's four instruction addresses delimit exactly the printed FDE instructions and the CIE's padding and instructions; alignments, return column and flags are the CIE's; the signal flag is the letter S |
| ImagePrinter.InfoDelimits | src/dwarf.rs:579-611 | for any section that does not wrap, the descriptor's address ranges select exactly the bytes the parsed offsets and lengths select, and the other fields are the CIE's |
| Modules.DistancesStay | src/module.rs:567-621 | `.eh_frame`, header and text end up as far from the load base as they were linked from the link base; without a text section its base is the range start |
| Modules.ModuleData.constructor | src/module.rs:554-646 | a new module: sections and bases at those distances, the table of an accepted header or its error and no table, mirrors of the sections present, an empty cache |
| Slide.EncodedSlides | src/dwarf.rs:216-264 | a pointer moves with the image iff it is relative to something that moves and its raw word is not zero; success, errors and position never depend on the load address |
| Slide.CieSlides | src/dwarf.rs:288-436 | a CIE parse does not depend on the load address except for its personality pointer, which moves iff the last P letter carries a direct, nonzero pointer relative to its own address |
| Slide.FdeSlides | src/dwarf.rs:463-570 | an FDE with a relative nonzero start moves by the slide and keeps its range and instructions; its LSDA moves iff it is relative and nonzero |
| Slide.LookupSlides | src/callbacks.rs:116-251 | the whole lookup is equivariant for every address and outcome: start, end and all four instruction addresses move, alignments, return column and signal flag stay, personality and LSDA move exactly when the bytes of the CIE and the FDE make them relative, errors correspond |
| Slide.LoadHigherSlidesImage | src/module.rs:567-621 | loading the parts `k` higher moves every section address and base by `k` |
| Slide.LoadedHigher | src/module.rs:567-621 | loading an image `k` higher and asking about `ip + k` gives the original answer for `ip`, moved by `k` |
| OrderedMap.Floor | src/module_set.rs:73 | the greatest key at or below an address, or none |
| FunctionCache.GetOrParse | src/callbacks.rs:82-114 | one call returns the uncached parse, keeps the cache genuine and leaves the signal query right |
| FunctionCache.CallIsTransparent | src/callbacks.rs:82-114 | a call is what the parser returns, never overwrites a key, and afterwards the cache-only signal query equals the covering function's flag |
| FunctionCache.InsertKeepsEntries | src/callbacks.rs:112 | a second insert for a key puts back an equal value |
| FunctionCache.EachFunctionParsedOnce | src/callbacks.rs:86-113 | in every sequential run each function is parsed successfully at most once, every answer is the parser's, and the cache never outgrows the table |
| FunctionCache.OverlapIsVisible | src/callbacks.rs:94-113 | two overlapping neighbours make the cache return another answer than the parser |
| FunctionCache.TransparentIffDisjoint | src/callbacks.rs:82-114 | for a sorted table the cache is invisible in every run iff no listed function reaches past the start of the next |
| CacheProtocol.StepKeepsInv | src/callbacks.rs:86-113 | every atomic step of any thread keeps all entries genuine, all replies right and every cached value |
| CacheProtocol.StepInserts | src/callbacks.rs:86-113 | all any thread's step does to the cache is to store the parse of some address |
| CacheProtocol.StepProgresses | src/callbacks.rs:86-113 | a thread's own step brings its call nearer the end or finishes it with one reply for its address; other threads do not touch it |
| CacheProtocol.EveryReplyIsUncached | src/callbacks.rs:82-114 | in every interleaving each finished call returned exactly the uncached parse, and the cache stays genuine and bounded |
| CacheProtocol.SignalQueryIsRight | src/module_set.rs:103-114 | however the cache was filled, once a call for an address succeeded the signal query gives the flag of the function covering it |
| CacheProtocol.CacheOnlyGrows | src/callbacks.rs:106-112 | later steps never remove or change a cached function |
| CacheProtocol.BothMayInsert | src/callbacks.rs:86-113 | two threads can both parse a function and both come to insert it |
| ModuleRegistry.RunsStayConsistent | src/module_set.rs:37-61 | over every run of removals and respectful additions the redirect map is exactly the union of the registered modules' sections |
| ModuleRegistry.RemoveUndoesAdd | src/module_set.rs:37-61 | removing a module just added restores both indices |
| ModuleRegistry.FindModuleIsRight | src/module_set.rs:72-79 | a module is found iff a registered range contains the address, and it is that module |
| ModuleRegistry.LookupLocalIsRight | src/module_set.rs:122-133 | a redirect is found iff a registered section holds the full 8-byte word, and it points at that word |
| ModuleRegistry.HitIsExactIffPlaced | src/module_set.rs:125 | the saturating range test accepts exactly the words a section holds iff the section ends below the last address |
| ModuleRegistry.ReplacingIsExactIffStartsCovered | src/module_set.rs:37-53 | adding over an existing key keeps the redirect map exact iff every replaced section starts where a new one does |
| ModuleSets.ModuleSet.Add | src/module_set.rs:37-53 | the module is under its start and every redirect is its last section there or what was before; a respectful addition keeps the registry consistent |
| ModuleSets.ModuleSet.Remove | src/module_set.rs:55-61 | an absent key changes nothing; otherwise the module goes and exactly the redirects that start where its sections do; consistency is kept |
| ModuleSets.ModuleSet.MaxKnownCodeAddress | src/module_set.rs:63-69 | an upper bound of all range ends that is zero or attained |
| ModuleSets.ModuleSet.FindModule | src/module_set.rs:72-79 | the query, and its exactness on a consistent registry |
| ModuleSets.ModuleSet.HasUnwindInfo | src/module_set.rs:81-87 | a module covers the address, has table entries and both sections |
| ModuleSets.ModuleSet.IsSignalFrame | src/module_set.rs:103-114 | answers from the cache of the module at the address |
| ModuleSets.ModuleSet.LookupLocal | src/module_set.rs:122-133 | the redirect query |
| ModuleSets.ModuleSet.Clone | src/module_set.rs:136-144 | the copy is the modules added again in key order; of a consistent registry it has equal indices, so it answers every query alike |
| ModuleRegistry.CloneIsEqualIff | src/module_set.rs:136-144 | for any registry with modules under their starts, a copy is equal iff every section is indexed and every redirect is the last section there of the last module, in key order, that has one |
| ModuleSets.ReplacementLeavesStaleRedirect | src/module_set.rs:37-53 | a concrete replacement after which the redirect map is no longer the union |
| Callbacks.UnwindCtx.AccessMem | src/callbacks.rs:283-317 | for any registry: a mirrored word is answered little-endian, a word past the end of a saturated mirror is told apart, and neither it nor a refused write leaves a trace; any other read is one request, and the address is recorded iff the reader refuses it |
| Callbacks.UnwindCtx.AccessAll | src/callbacks.rs:283-317 | after all the requests of a step the log has grown by exactly the unmirrored reads and the recorded address is the last one refused, if any |
| Callbacks.UnwindCtx.FindProcInfo | src/callbacks.rs:30-79 | fills the cache of the one module that covers the address and touches no other |
| Callbacks.InstructionBounds | src/dwarf.rs:584-587 | both instruction ranges of a parsed function begin and end inside the `.eh_frame` mirror |
| Callbacks.InstructionsAreLocal | src/callbacks.rs:298-305 | every instruction address of a parsed function whose word ends within `.eh_frame` is redirected to that word of the mirror |
| Callbacks.ReadInstructions | src/callbacks.rs:283-317 | `access_mem` at such an address returns that little-endian word of `.eh_frame`, without a request to the stack reader |
| Callbacks.LocalReadsAreInside | src/callbacks.rs:298-305 | on a consistent registry every word read through a local pointer is inside its mirror |
| FramePointer.FallbackMeaning | src/x86_64.rs:326-364 | every outcome of a step as an iff on the frame record: overflow, moved backwards, which word could not be read, the end, or the caller with its registers |
| FramePointer.FallbackReads | src/x86_64.rs:326-364 | the requests a step makes: none, the saved frame pointer, or also the link above it |
| FramePointer.ChainIsWalked | src/module.rs:802-844 | over any rising chain of frame records in memory the calls yield the pc, the stripped link of every record in order, and then the end |
| FramePointer.StepClimbs | src/x86_64.rs:326-364 | a recovered frame had both words read; the stack pointer rose to fp + 16 and the frame pointer rose or became zero |
| FramePointer.FallbackAlwaysAdvances | src/x86_64.rs:354-356 | the fallback never reports `DidNotAdvance` |
| FramePointer.WalkIsBounded | src/module.rs:802-844 | for any reader and any number of calls, errors retried or not: frame and stack pointers strictly increase, and the replies that yield return addresses are no more than the addresses ever read successfully |
| FramePointer.WalkTerminates | src/module.rs:802-844 | a run in which every call yields has at most one call more than there are successfully read addresses |
| FramePointer.FailureKeepsRegisters | src/module.rs:809-843 | an error or the end leaves the registers; an error leaves the state; the end is the done state |
| FramePointer.RetryRepeatsTheError | src/module.rs:810-815 | with a deterministic reader a retry gives the same error |
| FramePointer.EndIsFinal | src/module.rs:821 | after the end every further call returns the end without a read |
| Aarch64.MaskKeepsKnown | src/aarch64.rs:36-48 | the mask built from an address keeps every address up to it |
| Aarch64.MaskForModules | src/aarch64.rs:36-48 | the mask built from the greatest known code address keeps every address inside every registered module |
| Aarch64.MaskMeaning | src/aarch64.rs:36-48 | without a known address nothing is stripped; otherwise exactly the bits above the highest bit of the greatest known address are |
| Aarch64.StripIsIdempotent | src/aarch64.rs:46-48 | stripping twice is stripping once |
| Aarch64.Regs.constructor | src/aarch64.rs:66-73 | the link register is stored stripped |
| Aarch64.Regs.SetLr | src/aarch64.rs:90-92 | the link register stays in stripped form |
| Aarch64.Regs.FallbackUnwindFrame | src/aarch64.rs:256-295 | the aarch64 fallback step; the link register stays stripped and nothing moves unless a caller was found |
| X86_64.Regs.Set | src/x86_64.rs:130-133 | writes the slot and marks exactly that register known |
| X86_64.Regs.GetIfSet | src/x86_64.rs:126-128 | a register is read only if it is marked known |
| X86_64.Regs.ClearUnrestoredCallerRegisters | src/x86_64.rs:135-137 | afterwards exactly the stack and frame pointers are known |
| X86_64.Regs.AccessReg | src/x86_64.rs:51-81 | reads and writes of the instruction pointer and of the sixteen registers; an unknown register is refused |
| X86_64.Regs.FallbackUnwindFrame | src/x86_64.rs:326-364 | the x86_64 fallback step; on success the file knows exactly the caller's stack and frame pointers, otherwise nothing moved |
| Unwinder.ReturnsIntoTheCall | src/frame_address.rs:30-35 | a return address is looked up at its predecessor, so it belongs to the function it returns into even when it is just past its end |
| Unwinder.RouteMeaning | src/x86_64.rs:271-276 | on a consistent registry the route is decided by the module whose range contains the address: its header error, its tables, or neither |
| Unwinder.TablesMeaning | src/x86_64.rs:294-321 | the table route for every step: the end of the stack; a failure as the last refused address, else the parse error if the step asked, else libunwind's; a step as the end iff its stripped address is zero, an overflow, no advance, or the caller, raised by one iff it is an uninterrupted return into a module |
| Unwinder.UnwindFrame | src/x86_64.rs:258-323 | the route (broken header, tables, frame pointers), its outcome and its stack requests for any libunwind step, the table route also by what the step did and the reader answered; an error or the end moves no register; a cache changes only through a request for proc info or another thread |
| Unwinder.UnwindIterator.Next | src/module.rs:802-844 | the iterator: errors keep the state, the end is final, reply, registers and requests are those of the route, the table route also by what the step did and the reader answered, and a yielded address is an instruction pointer iff the caches at the query call the frame a signal frame |
| Unwinder.UnwindIterator.Run | src/module.rs:802-844 | over any number of calls, whatever libunwind and other threads do: replies, states and caches follow the protocol, right caches stay right, and a yielded address is an instruction pointer iff a signal trampoline covers the frame before it and is cached by the query; if the step asked for proc info, iff one covers it |
| Unwinder.FreshRun | src/module.rs:802-844 | the same for modules with well-formed tables of which nothing was asked yet |
| Unwinder.UnwindIterator.FallbackRun | src/module.rs:802-844 | calls of a new iterator that meet no frame with tables are the fallback walk: same replies, registers and requests, no cache change of its own, and an all-yielding run is bounded by the answered addresses |
| Unwinder.FreshFallbackRun | src/module.rs:802-844 | the same for fresh modules none of which has tables |
| Unwinder.AskKeepsRight | src/callbacks.rs:30-79 | a request for proc info about any address keeps all caches genuine |
| Unwinder.OthersKeepRight | src/callbacks.rs:106-112 | whatever other threads store, right caches stay right and lose no function |
| Unwinder.QueryIsRightIff | src/module_set.rs:103-114 | for right caches the query sees a signal frame iff its trampoline covers the address and is cached, so it is right iff the frame is none or the trampoline is cached |
| Unwinder.QueryIsRight | src/module_set.rs:103-114 | after a request for proc info, any right caches that kept the keys, whoever filled them, say whether a signal trampoline covers the frame |
| Unwinder.CachedStays | src/callbacks.rs:106-112 | in any run a function once cached stays cached, so one request serves all later frames in it |
| SignalStub.MissedWithoutRequest | src/module_set.rs:103-114 | without a request and with an uncached trampoline the query does not see the signal frame |
| SignalStub.StubIsMissed | src/module.rs:802-844 | a concrete run on aarch64: from a sigreturn stub, a step that asks for nothing makes `next` yield the interrupted instruction as a return address |
| Unwinder.NoSignalWithoutTables | src/module_set.rs:81-114 | a module without tables never has anything cached, so its frames are never taken for signal frames |
| Unwinder.EndStays | src/module.rs:821 | in any run, with tables or without, every call after the end returns the end |

## Left out

- libunwind itself and `init_and_step`: a step is an oracle; its register reads and writes are not tied to the register file.
- Unwinder.UnwindFrame: does not claim that moving an in-module return address up by one is right, because that depends on libunwind.
- Callbacks.UnwindCtx.AccessMem: does not say what a read past the end of a mirror returns, which is undefined; `Callbacks.LocalReadsAreInside` and `ModuleRegistry.HitIsExactIffPlaced` say when there is none.
- Allocation failure, mutex poisoning, `Arc` lifetimes, raw-pointer identity, `Send` and `Sync`.
- Loading modules from mapped files, section-name adapters and construction-time validation of parts.
- Module names inside errors, error texts and status-code decoding.
- Layout of the structures shared with libunwind, and its constant `abi` and `tag` fields.
- Evaluation of call-frame instructions, which libunwind does.
