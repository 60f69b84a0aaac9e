# libMachO: walking untrusted Mach-O images in place

libMachO reads Mach-O images through checked pointers: every offset, size and count in the
image may be wrong, nothing is copied, and the code walks the bytes where they are mapped.
This project models that core and proves what the walks compute on any bytes, as long as the C code
stays inside its mappings; where it can leave them, the exact inputs are named below.

The layers, each resting on the one before it:

| file | models |
|---|---|
| machine.dfy, core.dfy | fixed-width integers; overflow-checked arithmetic, slides, address ranges, the in-place swap |
| memory.dfy | memory objects: the checked translation between target and host addresses, little-endian words |
| leb128.dfy, cstrings.dfy, iteration.dfy | the ULEB128 decoder; NUL-terminated strings; loops that may never end |
| load_commands.dfy, command_lists.dfy, command_search.dfy, macho_image.dfy | the load-command iterator, lists of commands, searches by type, the image object |
| slide.dfy | the slide that an image's segments determine |
| linkedit.dfy, string_table.dfy, fixed_table.dfy, symbol_table.dfy, table_selection.dfy | tables in the __LINKEDIT segment: placement, lookup, stepping, enumeration, and which load command each is made from |
| trie_walk.dfy, trie_paths.dfy, exports_trie.dfy, trie_encoding.dfy, trie_serialise.dfy, trie_outcomes.dfy, export.dfy | the exports trie lookup and the export information it leads to |
| image_bytes.dfy, image_layout.dfy, slide_layout.dfy | from the bytes of an image, written field by field, to its commands, its tables and its slide |
| departures.dfy | inputs on which the code does something else than its documentation says, or reads outside a mapping |

## How to read it

Code that updates things in place is a class or a method with the C code's own loops, tests and
wrapping arithmetic; each such method is proved equal to a function over plain sequences, and the
lemmas are about those functions. A C error return is a value of `Machine.Error`; an out-parameter
that the C code leaves unwritten keeps the value passed as `prior`. Bytes are only read through
`MemoryObject.Read`, the word readers and `StrNLen`, whose preconditions are the bounds, so that a verified
method is a method without a read out of bounds. The trie lookup reads through a memory object that
ends where the trie ends.

Loops of the library that can run for ever are not cut short. `Iteration.Run` gives a run fuel, and
`Ends`, `Header.Stalls` and `SearchReturns` say which inputs come to an end; a method that
contains such a loop requires exactly that, because on all other inputs the C function never returns.

The main results:

* **Exports trie.** For any bytes: a hit is a terminal record reached by decoded edges that spell the
  symbol (`LookupSound`); if no empty label can be reached, at most as many edges as the symbol has bytes
  are followed, through whatever cycles (`NonEmptyLabelsTerminate`), and none can be reached in any bytes that
  represent a well-formed trie (`WellFormedHasNoEmptyLabels`); in general a lookup diverges iff it comes back to a node without having
  spelled anything in between (`DivergesIffCircle`). For bytes that represent a trie, in whatever
  placement and padding: the lookup succeeds iff the trie exports the symbol, at the record with the
  right information (`LookupComplete`), and `mk_export_init` arrives at those bytes (`ExportsAreFound`).
  A serialiser closes the circle (`SerialiseRoundTrip`, `SerialisedExportsAreFound`).
* **Load commands.** Iteration is a list of consecutive, disjoint, mapped commands
  (`IterationListsCommands`, `CommandsAreDisjoint`, `ListedCommandsTileTheMapping`), ends iff no command
  of size 0 is met (`IterationEndsIffNoEmptyCommand`), and gives packed commands back
  (`PackedCommandsRoundTrip`). First and last matches, the slide, and the choice of commands for each
  table follow from it.
* **Tables.** Placement keeps file distances (`PlacementKeepsDistances`); stepping and enumerating agree
  with each other and with the bytes (`SteppingSplitsTheTable`, `EnumerationAgreesWithStepping`,
  `SteppingVisitsEachIndexOnce`, `NextOfEntry`).
* **From bytes.** Whatever reads a field is also described from the outside: words are written out byte by byte
  (`Read32Is`, `Read64Is`, `DigitOfWord`), and images packed from commands that are written from named fields have
  the slide (`SlideFromBytes`), the tables (`StringsFromBytes`, `SymbolsFromBytes`, `IndirectSymbolsFromBytes`,
  `TrieFromBytes`) and the entries (`SymbolAddresses`, `IndirectAddresses`, `IndirectValues`) that these fields say.
  Lookups are described node by node in bytes (`TerminalNode`, `EdgesInOrder`, `EdgesDecide`, `SmallTrie`).
* **Arithmetic.** The division test for overflow is exact (`SizeMultiply`), slides and ranges mean what
  they should on the inputs named in their lemmas, and the ULEB128 decoder is exact unless a tenth group
  carries more than one bit (`DecodeIsExactUnlessTenthGroupSpills`).

## Where the code and its documentation differ

The model follows the code. The lemmas named say when exactly each of these happens, with a concrete input.

* A symbol that leaves the trie at a record that ends with the trie's last byte is reported as
  MK_EOUT_OF_RANGE, not MK_ENOT_FOUND: `AbsentSymbolError`, `LeafAtTheEnd`.
* A trie lookup need not return: `DivergesIffCircle`, `DivergingTrie`.
* A load command of size 0 is returned for ever: `IterationEndsIffNoEmptyCommand`, `EmptyCommandStalls`.
* The last load command may reach past `sizeofcmds`, because mappings are rounded up to pages. None does iff
  the sizes of the listed commands add up to no more than `sizeofcmds`: `NoCommandOverrunsIff`,
  `OnlyTheLastCommandMayOverrun`, `LastCommandOverruns`.
* `mk_macho_last_command_type` leaves the address of the image's last command in `*target_address`:
  `LastTargetIsTheMatch`, `LastTargetIsNotTheMatch`.
* `mk_symbol_table_init_with_segment` takes the first LC_DYSYMTAB where the indirect symbol table takes
  the last: `FirstAndLastAgree`, `SymbolTablesDisagree`.
* The block of `mk_string_table_enumerate_strings` gets the starting offset in every call:
  `EnumeratedOffsetIsTheFirst`, `EnumeratedOffsetsRepeat`.
* `mk_string_table_next_string` starts again at offset 0 in a table of 2^32 - 1 bytes without a final NUL:
  `SteppingEndsUnlessItWraps`, `WrappingTable`.
* The tenth group of a ULEB128 number is cut to one bit without an error:
  `DecodeIsExactUnlessTenthGroupSpills`, `TenthGroupIsCut`.
* Applying a positive slide, or removing a negative one, overflows above INT64_MAX and not above
  UINT64_MAX: `SlideIsSafeSum`, `UnslidAfterSlid`, `SlidAfterUnslid`, `UpperHalf`.
* A range that contains no address is not contained everywhere: `ContainsRangeDecidesInclusion`,
  `EmptyRangeIsNotContained`.

Three places of the modelled code can read outside a mapping. The methods require that they do not, which is exactly this:

* The field getters of load commands do not look at `cmdsize`: `LongCommandHoldsItsFields`,
  `ShortCommandHasNoFields`.
* `mk_indirect_symbol_table_get_entry_at_index` tests the wrong variable: `EntryTestNeverFires`,
  `ShortIndirectTable`.
* `mk_string_table_next_string` looks for a NUL up to the end of a table that may be only partly mapped:
  `StepStaysInsideIff`, `ShortStringTable`.

## Model

| member | source | states |
|---|---|---|
| Core.AddressApplyOffset | libMachO/Core/core.c:158-170 | the wrapping test accepts exactly the sums below 2^64; the result is the exact sum and is untouched on MK_EOVERFLOW |
| Core.AddressApplySlide | libMachO/Core/core.c:172-187 | for every slide but INT64_MIN: the exact sum, MK_EOVERFLOW iff a positive slide leads above INT64_MAX, MK_EUNDERFLOW iff the sum is negative; the result is untouched on an error |
| Core.AddressRemoveSlide | libMachO/Core/core.c:189-213 | the same for the difference, with the INT64_MAX limit on negative slides |
| Core.AddressSubtract | libMachO/Core/core.c:229-241 | the exact difference, or MK_EUNDERFLOW iff it is negative |
| Core.AddressDifference | libMachO/Core/core.c:243-256 | the exact signed difference iff both addresses are below 2^63, MK_EUNDERFLOW otherwise |
| Core.SizeMultiply | libMachO/Core/core.c:296-309 | succeeds iff the unbounded product is below 2^64, with that product; otherwise MK_EOVERFLOW and the result untouched |
| Core.SizeAddWithMultiply | libMachO/Core/core.c:311-327 | succeeds iff base plus the unbounded product is below 2^64, with that value; otherwise MK_EOVERFLOW and the result untouched |
| Core.DivisionDetectsOverflow | libMachO/Core/core.c:301-303 | dividing the wrapped product by one factor gives the other back iff nothing was wrapped away |
| Core.UnslidAfterSlid | libMachO/Core/core.c:172-213 | unsliding undoes sliding, except after a negative slide from above INT64_MAX, where it overflows |
| Core.SlidAfterUnslid | libMachO/Core/core.c:172-213 | sliding undoes unsliding, except after a positive slide was removed from above INT64_MAX, where it overflows |
| Core.Range.End | libMachO/Core/core.c:93-101 | the end of a range, saturated at the greatest address |
| Core.Range.ContainsAddress | libMachO/Core/core.c:110-125 | success iff the range does not wrap and holds address plus offset; MK_EOVERFLOW iff one of the two sums wraps |
| Core.Range.ContainsRange | libMachO/Core/core.c:127-152 | MK_EOVERFLOW iff one of the ranges wraps; the other outcomes are decided by the two lemmas below |
| Core.ContainsRangeDecidesInclusion | libMachO/Core/core.c:127-152 | full containment is inclusion of half-open intervals when the inner range holds an address; an empty inner range must still start inside or at an end |
| Core.PartialContainmentDecidesMeeting | libMachO/Core/core.c:136-142 | partial containment holds iff the closed intervals meet, so that touching counts |
| Core.ContainmentCarriesMembership | libMachO/Core/core.c:110-152 | containment is transitive, and an address contained in the inner range is contained in the outer one |
| Core.Swap | libMachO/Core/core.c:371-382 | the first `length` bytes are reversed in place and nothing else changes |
| Core.SwapTwice | libMachO/Core/core.c:371-382 | swapping twice restores the buffer |
| Memory.MemoryObject.VerifyLocalPointer | libMachO/Core/Memory/memory_object.c:84-133 | accepts exactly the intervals inside the host interval of the mapping, without being fooled by wrapping |
| Memory.MemoryObject.RemapAddress | libMachO/Core/Memory/memory_object.c:135-190 | succeeds iff the interval lies in the target interval, and the host pointer keeps its distance from the start |
| Memory.MemoryObject.UnmapAddress | libMachO/Core/Memory/memory_object.c:192-214 | succeeds iff the interval lies in the host interval, and the target address keeps its distance from the start |
| Memory.RemapUnmapInverse | libMachO/Core/Memory/memory_object.c:135-214 | remapping and unmapping are inverse to each other, in both directions |
| Memory.DigitOfWord | libMachO/MachO_ABI/macho_image.c:280-286 | the k-th byte of a word is its k-th digit to the base 256, least significant byte first |
| Memory.Read32Is | libMachO/MachO_ABI/macho_image.c:280-286 | a 32-bit word written out as a sum of its four bytes |
| Memory.Read64Is | libMachO/MachO_ABI/LoadCommands/load_command_segment_64.c:112-121 | a 64-bit word is its lower 32-bit word plus 2^32 times its upper one |
| Leb128.CopyUleb128 | libMachO/MachO_ABI/MachTypes/_mach_trie.c:31-55 | the loop with its 64-bit shifts computes Decode on the bytes up to `end`; on an error nothing is stored |
| Leb128.Decode | libMachO/MachO_ABI/MachTypes/_mach_trie.c:31-55 | succeeds iff one of the first ten bytes ends the number, consuming up to there; MK_ESIZE iff there is an eleventh byte to look at |
| Leb128.AccumulatorFits | libMachO/MachO_ABI/MachTypes/_mach_trie.c:43-46 | adding a shifted group to the 64-bit accumulator is exact modulo 2^64 for all ten groups |
| Leb128.OrOfDisjoint | libMachO/MachO_ABI/MachTypes/_mach_trie.c:45 | or-ing a shifted group into a smaller accumulator is addition |
| Leb128.DecodeEncode | libMachO/MachO_ABI/MachTypes/_mach_trie.c:31-55 | every encoding of a 64-bit number in up to ten groups, padded or not, decodes to it whatever follows |
| Leb128.DecodeIsExactUnlessTenthGroupSpills | libMachO/MachO_ABI/MachTypes/_mach_trie.c:42-46 | a decoded value equals the unbounded number in the groups iff there is no tenth group above 1 |
| Leb128.GroupIsDigit | libMachO/MachO_ABI/MachTypes/_mach_trie.c:42-46 | the k-th group is the k-th digit to the base 128, least significant group first |
| Leb128.DwarfExamples | libMachO/MachO_ABI/MachTypes/_mach_trie.c:31-55 | the examples of section 7.6 of DWARF Version 4 decode to their numbers |
| Leb128.DecodeLocal | libMachO/MachO_ABI/MachTypes/_mach_trie.c:36-47 | the result depends only on the groups consumed |
| LoadCommands.NextCommandIs | libMachO/MachO_ABI/macho_image.c:304-368 | one call, in offsets: the next command is one cmdsize further on and is returned iff it starts inside sizeofcmds and lies in the mapping |
| LoadCommands.CommandsAreConsecutive | libMachO/MachO_ABI/macho_image.c:335-336 | on arbitrary bytes each command starts where the one before it ended |
| LoadCommands.CommandIsMapped | libMachO/MachO_ABI/macho_image.c:324-357 | on arbitrary bytes every command returned starts behind the header and inside sizeofcmds and lies wholly in the mapping |
| LoadCommands.CommandsAreDisjoint | libMachO/MachO_ABI/macho_image.c:324-357 | on arbitrary bytes two commands never overlap |
| LoadCommands.IterationListsCommands | libMachO/MachO_ABI/macho_image.c:304-368 | iterating from NULL returns exactly the listed commands, then NULL; or, if the last one has size 0, that one for ever |
| LoadCommands.IterationEndsIffNoEmptyCommand | libMachO/MachO_ABI/macho_image.c:336 | the iteration from NULL ends iff no listed command has size 0 |
| CommandLists.PackedCommandsRoundTrip | libMachO/MachO_ABI/macho_image.c:304-368 | a command area made of packed commands that fill sizeofcmds is iterated as exactly those commands, byte for byte, then NULL |
| CommandLists.ListedCommandsTileTheMapping | libMachO/MachO_ABI/macho_image.c:324-357 | on arbitrary bytes the commands returned are one piece of the mapping, cut without gap or overlap |
| CommandLists.OnlyTheLastCommandMayOverrun | libMachO/MachO_ABI/macho_image.c:339-357 | every command starts inside sizeofcmds, and all but the last end inside it |
| CommandLists.NoCommandOverrunsIff | libMachO/MachO_ABI/macho_image.c:339-357 | all commands end inside sizeofcmds iff the sizes of the listed commands add up to no more than it |
| MachOImages.MachOImage.EnumerateCommands | libMachO/MachO_ABI/macho_image.c:370-382 | the block is called once for each listed command, in order, with its index and address |
| MachOImages.CommandCallsAreIndexed | libMachO/MachO_ABI/macho_image.c:372-381 | the 32-bit index never wraps, and the i-th call is for the i-th command that stepping returns |
| MachOImages.MachOImage.NextCommandType | libMachO/MachO_ABI/macho_image.c:384-400 | going on from any pointer, the first of the commands behind it that has the type, or NULL; the address left is that of the last command passed |
| MachOImages.MachOImage.FindCommand | libMachO/MachO_ABI/macho_image.c:402-404 | the first command of the type, with its address |
| MachOImages.MachOImage.LastCommandType | libMachO/MachO_ABI/macho_image.c:406-417 | the last command of the type; the address left is that of the last command of the image |
| CommandSearch.NextMatchIs | libMachO/MachO_ABI/macho_image.c:384-417 | a search that starts behind one match returns the next match |
| TableSelection.SelectedIsExtreme | libMachO/MachO_ABI/macho_image.c:402-417 | the first and the last match are the lowest and the highest command of the type among all commands, and there is one iff there is a command of the type |
| Slides.LowestIsLowest | libMachO/MachO_ABI/macho_image.c:165-205 | the loop computes the lowest vmaddr of the segments that count, or fails at a field that holds the all-ones value |
| Slides.SlideIsExact | libMachO/MachO_ABI/macho_image.c:165-220 | a slide exists iff no field is all ones, some segment that counts starts below 2^63 and so does the load address; then address == lowest vmaddr + slide as integers |
| Slides.ZeroFillSegmentsDoNotMatter | libMachO/MachO_ABI/macho_image.c:191-200 | a zero-fill segment at address 0 can be left out without changing the result |
| Slides.SlideMovesSegmentsTogether | libMachO/MachO_ABI/Segments/segment.c:88-97 | applying the slide takes the lowest segment to the load address, and every other segment keeps its distance from it |
| SlideLayouts.Segment64Reads | libMachO/MachO_ABI/macho_image.c:179-185 | an LC_SEGMENT_64 written from its fields has vmaddr, vmsize, fileoff and filesize at 24, 32, 40 and 48 |
| SlideLayouts.Segment32Reads | libMachO/MachO_ABI/macho_image.c:186-193 | an LC_SEGMENT written from its fields has vmaddr, vmsize, fileoff and filesize at 24, 28, 32 and 36 |
| SlideLayouts.SegmentsAre | libMachO/MachO_ABI/macho_image.c:165-205 | the segments of an image packed from any commands are those it was made of, in both widths |
| SlideLayouts.SlideFromBytes | libMachO/MachO_ABI/macho_image.c:165-220 | from the bytes of an image: the slide is the load address minus the least vmaddr over the segments that are not (vmaddr 0, vmsize not 0, filesize 0); it exists iff no checked field is all ones and both addresses are below 2^63 |
| MachOImages.MachOImage.Init | libMachO/MachO_ABI/macho_image.c:128-225 | succeeds iff a slide exists (SlideFromBytes), stores it, and otherwise returns MK_EDERIVED and leaves the image freed |
| LinkEdit.PlaceInSegment | libMachO/MachO_ABI/exports_trie.c:84-112 | computes the placement of a table, and the range that is written even when the last check then fails |
| LinkEdit.PlacementIsExact | libMachO/MachO_ABI/exports_trie.c:84-112 | a table is placed iff its file interval, moved by the segment, fits the segment; it then lies exactly there; and which error it is otherwise |
| LinkEdit.PlacementKeepsDistances | libMachO/MachO_ABI/symbol_table.c:84-123 | two placed tables are as far apart in memory as in the file, and overlap iff they overlap there |
| LinkEdit.PlacedTableIsValid | libMachO/MachO_ABI/string_table.c:75-106 | a placed table lies in the mapping of its segment, wholly if that mapping is not short |
| ImageLayouts.StringsFromBytes | libMachO/MachO_ABI/string_table.c:66-106 | the last LC_SYMTAB, written from its fields, places the strings at stroff with strsize bytes; MK_ENOT_FOUND iff stroff is 0 |
| ImageLayouts.SymbolsFromBytes | libMachO/MachO_ABI/symbol_table.c:72-123 | the same command places the symbols at symoff with 16 * nsyms or 12 * nsyms bytes, by the magic number |
| ImageLayouts.IndirectSymbolsFromBytes | libMachO/MachO_ABI/indirect_symbol_table.c:66-107 | the last LC_DYSYMTAB, written from its 18 fields, places the indirect symbols at indirectsymoff with 4 * nindirectsyms bytes |
| ImageLayouts.TrieFromBytes | libMachO/MachO_ABI/exports_trie.c:61-115 | the preferred command, written from its fields, places the trie at export_off (dataoff) with export_size (datasize) bytes |
| ImageLayouts.SymbolAddresses | libMachO/MachO_ABI/symbol_table.c:205-230 | symbol k of a 64-bit image is at start + 16 * k, of a 32-bit image at start + 12 * k, and is there iff k is below nsyms and its bytes are mapped |
| ImageLayouts.IndirectAddresses | libMachO/MachO_ABI/indirect_symbol_table.c:172-191 | indirect entry k is at start + 4 * k, and is there iff k is below nindirectsyms and its bytes are mapped |
| ImageLayouts.IndirectValues | libMachO/MachO_ABI/indirect_symbol_table.c:190 | an indirect table written as words is read as those words |
| ImageLayouts.IndirectCalls | libMachO/MachO_ABI/indirect_symbol_table.c:193-226 | the k-th call of an enumeration gets the word, the index and the address of the k-th entry from the start index on |
| ImageBytes.PackedImage | libMachO/MachO_ABI/macho_image.c:304-382 | an image in which any commands are packed is iterated as those commands, exactly as many as ncmds says, and the iteration ends |
| ImageBytes.PackedKind | libMachO/MachO_ABI/macho_image.c:394 | each command of such an image keeps its type and size |
| ImageBytes.LastOfImage | libMachO/MachO_ABI/macho_image.c:406-417 | the last search returns the place of the last command of a type in the image |
| StringTables.StringTable.Init | libMachO/MachO_ABI/string_table.c:51-107 | MK_EINVAL for a command of another type or image; stores the placed range of the strings (StringsFromBytes), or returns the error and stays dead |
| StringTables.StringTable.GetStringAtOffset | libMachO/MachO_ABI/string_table.c:168-193 | the pointer and address of the byte at the offset iff it lies in a mapped table, otherwise NULL and nothing stored |
| StringTables.StringTable.CopyStringAtOffset | libMachO/MachO_ABI/string_table.c:195-220 | the bytes up to the NUL, cut at the buffer size, are copied, counted, and nothing else of the buffer changes |
| StringTables.StringTable.NextString | libMachO/MachO_ABI/string_table.c:222-265 | from any pointer, the string behind the NUL that ends the one pointed into, with the 32-bit offset arithmetic of the C code |
| StringTables.StringTable.EnumerateStrings | libMachO/MachO_ABI/string_table.c:267-303 | the block is called for every string from the offset to the end of the table, also for an unterminated last one |
| StringTables.NextOffsetIs | libMachO/MachO_ABI/string_table.c:222-265 | one step leads to the next string of the table; past the last one it ends, or starts again at 0 iff the table wraps |
| StringTables.NextOffsetFromInside | libMachO/MachO_ABI/string_table.c:253-262 | from anywhere inside a string a step leads where it leads from its start |
| StringTables.NoNextOffsetFromOutside | libMachO/MachO_ABI/string_table.c:237-251 | from a pointer outside the table there is no next string |
| StringTables.SteppingListsStrings | libMachO/MachO_ABI/string_table.c:222-265 | stepping from any offset visits the strings from there on in order and then ends |
| StringTables.SteppingEndsUnlessItWraps | libMachO/MachO_ABI/string_table.c:249-262 | stepping ends iff the table is not 2^32 - 1 bytes without a final NUL |
| StringTables.WrappingNeverEnds | libMachO/MachO_ABI/string_table.c:249-262 | in a table that wraps every step returns one of its strings, for ever |
| StringTables.SteppingSplitsTheTable | libMachO/MachO_ABI/string_table.c:222-265 | the strings stepped through, each followed by one NUL, are exactly the bytes of a terminated table |
| StringTables.EnumerationAgreesWithStepping | libMachO/MachO_ABI/string_table.c:222-303 | enumeration visits the same pointers and addresses as stepping from the same offset |
| CStrings.JoinedSplit | libMachO/MachO_ABI/string_table.c:222-265 | splitting at NULs and joining gives the bytes back, with a missing final NUL added |
| CStrings.SplitJoined | libMachO/MachO_ABI/string_table.c:222-265 | joining NUL-free strings and splitting gives the strings back |
| SymbolTables.SymbolTable.Init | libMachO/MachO_ABI/symbol_table.c:51-124 | MK_EINVAL for commands of other types or images; stores the placed range of the symbols (SymbolsFromBytes) and both commands, or returns the error, keeps the commands and stays dead; a missing LC_DYSYMTAB leaves the old one |
| SymbolTables.SymbolTable.GetMachSymbolAtIndex | libMachO/MachO_ABI/symbol_table.c:205-230 | the pointer and address of the entry iff it is in the table and mapped, otherwise NULL and nothing stored |
| SymbolTables.SymbolTable.NextMachSymbol | libMachO/MachO_ABI/symbol_table.c:232-274 | from NULL entry 0, from any pointer into entry i entry i + 1, with its index; NULL at the end or from outside |
| SymbolTables.SymbolTable.EnumerateMachSymbols | libMachO/MachO_ABI/symbol_table.c:276-314 | the block is called once for every entry from the index on, with pointer, index and address |
| FixedTables.NextOfEntry | libMachO/MachO_ABI/symbol_table.c:268-271 | from any byte of entry i, division recovers i and the step leads to entry i + 1, if it is in the table and mapped |
| FixedTables.NoNextFromOutside | libMachO/MachO_ABI/symbol_table.c:252-266 | from a pointer outside the table there is no next entry |
| FixedTables.SteppingVisitsEachIndexOnce | libMachO/MachO_ABI/symbol_table.c:232-274 | stepping from NULL visits every mapped index exactly once, in order, and then ends |
| FixedTables.EnumerationAgreesWithStepping | libMachO/MachO_ABI/symbol_table.c:205-314 | in a mapped table the k-th call of the block is for the entry that k steps lead to, at its exact address |
| SymbolTables.IndirectSymbolTable.Init | libMachO/MachO_ABI/indirect_symbol_table.c:51-108 | MK_EINVAL for a command of another type or image; stores the placed range of the entries (IndirectSymbolsFromBytes) and the command, or returns the error and stays dead |
| SymbolTables.IndirectSymbolTable.GetEntryAtIndex | libMachO/MachO_ABI/indirect_symbol_table.c:172-191 | the value and address of a mapped entry; UINT32_MAX and nothing stored past the count |
| SymbolTables.IndirectSymbolTable.EnumerateEntries | libMachO/MachO_ABI/indirect_symbol_table.c:193-226 | the block is called once for every entry from the index on, with value, index and address |
| TableSelection.InitLoadCommand | libMachO/MachO_ABI/load_command.c:213-407 | succeeds iff the two words and then the whole command lie in the header mapping and its type has a class, MK_EINVALID_DATA otherwise |
| TableSelection.TypesWithoutClass | libMachO/MachO_ABI/load_command.c:244-404 | which of the command types 1 to 0x34 have no class, with and without LC_REQ_DYLD |
| TableSelection.InitStringTable | libMachO/MachO_ABI/string_table.c:126-145 | made from the last LC_SYMTAB, MK_ENOT_FOUND without one |
| TableSelection.InitSymbolTable | libMachO/MachO_ABI/symbol_table.c:145-166 | made from the last LC_SYMTAB and the first LC_DYSYMTAB, MK_ENOT_FOUND without an LC_SYMTAB |
| TableSelection.InitIndirectSymbolTable | libMachO/MachO_ABI/indirect_symbol_table.c:125-144 | made from the last LC_DYSYMTAB, MK_ENOT_FOUND without one |
| TableSelection.InitExportsTrie | libMachO/MachO_ABI/exports_trie.c:133-157 | made from the chosen command, MK_ENOT_FOUND without one |
| TableSelection.TrieCommandIsPreferred | libMachO/MachO_ABI/exports_trie.c:139-147 | the choice is the last LC_DYLD_EXPORTS_TRIE whatever else there is, without any the last LC_DYLD_INFO, without any of both the last LC_DYLD_INFO_ONLY |
| TableSelection.StringsAndSymbolsBelongTogether | libMachO/MachO_ABI/symbol_table.c:145-163 | the two tables of a segment come from one LC_SYMTAB: their distance, sizes and overlap are those its fields give in the file |
| TableSelection.FirstAndLastAgree | libMachO/MachO_ABI/symbol_table.c:154-163 | tables that take the first and the last command of a type use the same one iff the image has at most one |
| ExportsTries.ExportsTrie.Init | libMachO/MachO_ABI/exports_trie.c:51-116 | MK_EINVAL for a command of another type or image; stores the placed range of the trie (TrieFromBytes), or returns the error and stays dead |
| ExportsTries.ExportsTrie.GetTerminalNodeForSymbol | libMachO/MachO_ABI/exports_trie.c:185-331 | returns what Lookup says of the trie's bytes: the record's address and pointer on a hit, otherwise the error with nothing stored |
| ExportsTries.MatchLabel | libMachO/MachO_ABI/exports_trie.c:266-279 | passes over the label up to its NUL or the end of the trie and decides whether it is a prefix of the rest of the symbol, reading nothing behind the symbol's NUL |
| ExportsTries.ReadOneEdge | libMachO/MachO_ABI/exports_trie.c:266-301 | reads label, NUL and offset with both cursors in step, and fails with the error of the first check that fails |
| ExportsTries.PassLabel | libMachO/MachO_ABI/exports_trie.c:269-295 | passes over a label and its NUL with both cursors in step; fails iff no byte of the trie follows, with the error of the check that failed |
| ExportsTries.TryEdge | libMachO/MachO_ABI/exports_trie.c:265-317 | tries one edge: takes it, fails, or goes on with both cursors at the next edge, as FollowEdges says |
| ExportsTries.PassHeader | libMachO/MachO_ABI/exports_trie.c:235-260 | passes over terminal size, information and child count with both cursors in step, or fails with the error of the first check that fails |
| ExportsTries.VisitEdges | libMachO/MachO_ABI/exports_trie.c:235-318 | the visit of a node behind its terminal size |
| ExportsTries.VisitOneNode | libMachO/MachO_ABI/exports_trie.c:219-318 | the visit of one node: found iff the symbol is used up and the terminal size is not 0, otherwise the edges decide |
| ExportsTries.FollowBranch | libMachO/MachO_ABI/exports_trie.c:262-318 | commits to the first edge whose label the symbol starts with |
| ExportsTries.VisitAt | libMachO/MachO_ABI/exports_trie.c:195-318 | maps the rest of the trie and visits the node there; a trie that is not wholly mapped is out of range |
| TrieOutcomes.UnreadableNode | libMachO/MachO_ABI/exports_trie.c:194-226 | no node at the offset: MK_ENOT_FOUND; an unreadable terminal size: its error |
| TrieOutcomes.TerminalNode | libMachO/MachO_ABI/exports_trie.c:228-233 | with the symbol used up, a non-zero terminal size is a hit, whatever follows it |
| TrieOutcomes.NodeWithoutRoom | libMachO/MachO_ABI/exports_trie.c:235-260 | a node whose edges would start behind the trie is MK_EOUT_OF_RANGE, or MK_EOVERFLOW iff its size leads past 2^64 |
| TrieOutcomes.EdgesInOrder | libMachO/MachO_ABI/exports_trie.c:265-318 | the first matching edge is taken, a child offset of 0 meaning no child; others are passed over, failing at the end of the trie |
| TrieOutcomes.BrokenEdge | libMachO/MachO_ABI/exports_trie.c:281-301 | an unterminated label is out of range, an unreadable child offset fails with its error |
| TrieOutcomes.EdgesDecide | libMachO/MachO_ABI/exports_trie.c:320-330 | no child: MK_ENOT_FOUND; a child: the lookup goes on there with the rest of the symbol |
| TrieOutcomes.SmallTrie | libMachO/MachO_ABI/exports_trie.c:185-331 | a trie of ten given bytes: its symbol is found at offset 5 with its two bytes of information, others are not found |
| TrieOutcomes.ChildAtZeroIsAbsent | libMachO/MachO_ABI/exports_trie.c:320-326 | a given trie with a child offset of 0: the symbol is not found |
| TriePaths.LookupSound | libMachO/MachO_ABI/exports_trie.c:185-331 | on arbitrary bytes a hit is a terminal record reached from offset 0 by decoded edges whose labels spell exactly the symbol |
| TriePaths.HitIsSpelled | libMachO/MachO_ABI/exports_trie.c:194-327 | the same from any node on, with the path as witness |
| TriePaths.NonEmptyLabelsTerminate | libMachO/MachO_ABI/exports_trie.c:265-322 | if no empty label can be reached from a node, a lookup from there follows at most as many edges as bytes are left to spell, even through cycles of offsets |
| TriePaths.DivergesIffCircle | libMachO/MachO_ABI/exports_trie.c:194-328 | a lookup does not end iff it comes back to a node with the same bytes left to spell; as many edges as there are states decide it |
| TriePaths.CirclesAreSpelledWithNothing | libMachO/MachO_ABI/exports_trie.c:265-322 | every edge followed around such a circle has an empty label |
| TriePaths.DivergingTrie | libMachO/MachO_ABI/exports_trie.c:320-322 | no lookup in a trie that starts with two given records ever ends |
| TrieEncoding.FindIsExports | libMachO/MachO_ABI/exports_trie.c:265-318 | committing to the first matching edge finds exactly the symbols that some path spells, when no sibling label is a prefix of another |
| TrieEncoding.WellFormedHasNoEmptyLabels | libMachO/MachO_ABI/exports_trie.c:265-322 | in any bytes that represent a well-formed trie no empty label can be reached, whatever the bytes between its records |
| TrieEncoding.LookupComplete | libMachO/MachO_ABI/exports_trie.c:185-331 | in any bytes that represent a well-formed trie every lookup ends, succeeds iff the trie exports the symbol, and reports a record with exactly its information |
| TrieEncoding.AbsentSymbolError | libMachO/MachO_ABI/exports_trie.c:254-258 | an absent symbol is reported as MK_ENOT_FOUND iff the record where it leaves the trie does not end with the trie's last byte, as MK_EOUT_OF_RANGE otherwise |
| TrieSerialise.SerialisedRepresents | libMachO/MachO_ABI/exports_trie.c:194-318 | the serialiser's bytes, wherever they are stored, represent the trie |
| TrieSerialise.SerialiseRoundTrip | libMachO/MachO_ABI/exports_trie.c:185-331 | looking a symbol up in a serialised trie gives what the trie exports; with padding behind it, absent symbols are MK_ENOT_FOUND |
| TrieExports.ReadTerminalSize | libMachO/MachO_ABI/Exports/export.c:65-114 | trying windows of 2 to 8 bytes gives what one decode of the rest of the segment gives: the size iff it ends within eight bytes, MK_EINVAL at the end of the segment, MK_EINVALID_DATA otherwise |
| TrieExports.Export.Init | libMachO/MachO_ABI/Exports/export.c:51-140 | stores where the node's information is, iff it is not empty and lies in the segment and in the trie; otherwise the error, and the object stays dead |
| TrieExports.ExportOfRecord | libMachO/MachO_ABI/Exports/export.c:51-140 | a record can be made an export iff its size takes at most eight groups and is not 0 and the information lies inside the trie; which error it is otherwise |
| TrieExports.NoExportOutside | libMachO/MachO_ABI/Exports/export.c:67-71 | a node outside the segment is refused with MK_EINVAL |
| TrieExports.ExportsAreFound | libMachO/MachO_ABI/Exports/export.c:51-140 | in bytes that represent a trie, lookup and mk_export_init together give some information for a symbol iff the trie has it and its size is stored in at most eight groups |
| TrieExports.SerialisedExportsAreFound | libMachO/MachO_ABI/Exports/export.c:51-140 | the same for serialised tries of up to 2^32 - 1 bytes, without the condition on groups |
| Departures.EmptyCommandStalls | libMachO/MachO_ABI/macho_image.c:336 | a concrete image whose only command has size 0: every call returns it |
| Departures.LastCommandOverruns | libMachO/MachO_ABI/macho_image.c:339-357 | a concrete image whose command ends 8 bytes behind the announced area |
| Departures.LastTargetIsTheMatch | libMachO/MachO_ABI/macho_image.c:406-417 | the address left is that of the match iff the last command of the image has the type |
| Departures.LastTargetIsNotTheMatch | libMachO/MachO_ABI/macho_image.c:406-417 | a concrete image where it is not |
| Departures.SymbolTablesDisagree | libMachO/MachO_ABI/symbol_table.c:154-163 | a concrete image where the symbol table and the indirect symbol table use different LC_DYSYMTAB commands |
| Departures.EnumeratedOffsetIsTheFirst | libMachO/MachO_ABI/string_table.c:291-301 | the offset passed to the block is always the starting one, which is the string's own iff it is the first call |
| Departures.EnumeratedOffsetsRepeat | libMachO/MachO_ABI/string_table.c:291-301 | a concrete table where the second call gets the first offset |
| Departures.WrappingTable | libMachO/MachO_ABI/string_table.c:249-262 | a concrete table in which stepping never ends |
| Departures.LongCommandHoldsItsFields | libMachO/MachO_ABI/load_command.c:213-242 | the fields of an accepted command are mapped iff they end before the mapping does, which they do if cmdsize covers them |
| Departures.ShortCommandHasNoFields | libMachO/MachO_ABI/LoadCommands/load_command_symtab.c:81-90 | a concrete image whose LC_SYMTAB is accepted although none of its fields is mapped |
| Departures.EntryTestNeverFires | libMachO/MachO_ABI/indirect_symbol_table.c:182-190 | the tested address is never the error value, and the pointer that is read is it iff the entry is not mapped |
| Departures.ShortIndirectTable | libMachO/MachO_ABI/indirect_symbol_table.c:182-190 | a concrete table whose second entry is below the count and not mapped |
| Departures.StepStaysInsideIff | libMachO/MachO_ABI/string_table.c:256-260 | from inside the mapped part of a table, a step stays in the mapping iff the table is wholly mapped or a NUL follows in the mapping |
| Departures.ShortStringTable | libMachO/MachO_ABI/string_table.c:256-260 | a concrete half-mapped table from whose start a step leaves the mapping |
| Departures.EmptyRangeIsNotContained | libMachO/Core/core.c:143-149 | a concrete empty range that is included in another as a set, and rejected |
| Departures.LeafAtTheEnd | libMachO/MachO_ABI/exports_trie.c:254-258 | a concrete trie in which every symbol is absent but reported as MK_EOUT_OF_RANGE |
| Departures.TenthGroupIsCut | libMachO/MachO_ABI/MachTypes/_mach_trie.c:42-46 | ten concrete groups that say 2^64 are read as 0 |
| Departures.SlideIsSafeSum | libMachO/Core/core.c:172-213 | applying (removing) a slide is the documented safe sum (difference) iff no positive (negative) slide leads above INT64_MAX without leaving 64 bits |
| Departures.UpperHalf | libMachO/Core/core.c:172-213 | concrete addresses where sliding fails although the sum fits, and where it cannot be undone |

## Left out

- MachOKit (Objective-C): bind and rebase interpreters, function starts, node search and the shared-cache classes are not part of this model.
- Shared-cache slide chains, DSCHelper.c, Util.c, architecture.c: comments, file-system probing and finite name tables, which hold none of the pointer arithmetic modelled here.
- mk_export_get_info (export.c:154-212): two or three ULEB128 reads in a row behind the information that `TrieExports` finds; what they decode is covered by `Leb128`.
- Method dispatch up the `super` chain (core.c:440-498): a search through a short constant list.
- The classes that mk_load_command_init chooses (load_command.c:244-404): the type word of a command stands for its class, although LC_SUB_LIBRARY and LC_TWOLEVEL_HINTS get the classes of other types; no table is made from those.
- Memory maps (memory_map.c, memory_map_self.c): a mapping is taken as a byte sequence at a target and a host address, neither of which wraps; page rounding appears as a header mapping that may be longer than the commands.
- Byte order: only images in the host's little-endian order, for which the library's data models do not swap; Core.Swap is the swap itself.
- mk_macho_init_with_slide (macho_image.c:51-126): reading the header once, the magic number and the file type are taken for granted, and its mapping is an argument of MachOImages.MachOImage.Init.
- mk_segment_init (segment.c:62-125): a segment is given by its slid range, file offset and mapping; a shared-cache __LINKEDIT mapping may be shorter than the range.
- NULL arguments, logging and descriptions: out-parameters are always there; a NULL command or NULL previous pointer is modelled.
- The value of a read outside a mapping: initialisers require that the fields they read are mapped, up to the last one read; see Departures.LongCommandHoldsItsFields.
- MachOImages.MachOImage.NextCommandType: requires that the search comes to an end, which it does unless it runs into a command of size 0 before a match.
- ExportsTries.ExportsTrie.GetTerminalNodeForSymbol: requires that the lookup ends, see TriePaths.DivergesIffCircle.
- MachOImages.MachOImage.Init: requires that the fields it reads are mapped; the C code reads them in any case.
- StringTables.StringTable.Init: requires that the fields it reads are mapped; the C code reads them in any case.
- SymbolTables.SymbolTable.Init: requires that the fields it reads are mapped; the C code reads them in any case.
- SymbolTables.IndirectSymbolTable.Init: requires that the fields it reads are mapped; the C code reads them in any case.
- ExportsTries.ExportsTrie.Init: requires that the fields it reads are mapped; the C code reads them in any case.
- TableSelection.InitStringTable: requires that the fields it reads are mapped; the C code reads them in any case.
- TableSelection.InitSymbolTable: requires that the fields it reads are mapped; the C code reads them in any case.
- TableSelection.InitIndirectSymbolTable: requires that the fields it reads are mapped; the C code reads them in any case.
- TableSelection.InitExportsTrie: requires that the fields it reads are mapped; the C code reads them in any case.
- StringTables.StringTable.NextString: requires that the search for the NUL stays in the mapping, see Departures.StepStaysInsideIff.
- StringTables.StringTable.CopyStringAtOffset: the buffer holds what is copied. The documented call with a NULL buffer is not modelled; the C code copies to it nonetheless.
- SymbolTables.IndirectSymbolTable.GetEntryAtIndex: an entry below the count must be mapped, see Departures.EntryTestNeverFires.
- Core.AddressApplySlide: not for INT64_MIN, whose negation is undefined in C.
- Core.AddressRemoveSlide: not for INT64_MIN, for the same reason.
- Leb128.CopyUleb128: adds where the C code or-s; Leb128.OrOfDisjoint is the justification, stated on bit vectors.
- TrieSerialise.SerialisedRepresents: the serialiser is not code of the library, which only reads tries; it shows that the hypotheses of the lookup lemmas can be met for every trie.
