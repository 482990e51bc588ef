# A verified model of the rv32-emulator devices and guest runtime

This project models the parts of the RISC-V emulator front end that carry its hard logic, and proves what they
promise. `dafny verify dfyconfig.toml` checks the whole project with Dafny 4.11.

- **The formatter** (`c_test/printf.c`) and the number reader (`c_test/standard.c`). `Format.Render` gives a
  format and an argument list their meaning: parse one directive, render it, continue with the rest. `Printf`
  holds the interpreter itself, with its format cursor, its 32-byte scratch array filled backwards and its output
  sink, and proves that it prints exactly that text under every limit. `FormatMeaning` says from the characters of a
  directive alone what each conversion prints. `NumberTheorems` compares what integer
  conversions print with the C standard and says exactly when they agree, `HashTheorems` the same for the `#` flag;
  `RoundTrip` says exactly when `str2int`
  reads a printed number back.
- **The heap** (`c_test/mem.c`). `HeapModel` is the allocator as a function on a list of blocks, `HeapRuns` proves
  its safety over arbitrary runs, and `Allocator` is the code on flat memory, where headers are bytes next to the
  payloads, proved to compute that function and to leave every other payload alone. `HeapClient` is what a client sees of
  it: a map of buffers, each with its own contents.
- **The virtio block device** (`src/devices/viritio.rs`). Register file, ring layout, descriptor chains and DMA.
  `VirtioChain` goes from descriptor bytes to disk bytes; `VirtioRuns` proves that over any run the disk is a store that
  returns the last write, and that the used ring names the last eight requests.
- **The UART receive path** (`src/devices/uart.rs`) as interleaved atomic steps of the reader thread and the CPU.
- **The growable string** (`c_test/string.c`) with its amortised bound, **the interrupt controller**
  (`src/devices/plic.rs`) and **`check_ints`** (`src/main.rs`).

The modelled build is the one of `c_test/Makefile`: ilp32, unsigned `char`, `unsigned long` of 32 bits, no floats and
no `long long` printing. Source code that updates things in place is modelled by methods, classes and arrays, each
proved against a function; the theorems are about those functions. A C pointer into a string is the rest of the
string, and a ghost parameter such as a block index names what a pointer points to.

## Where the code departs from what one would assume

Each of these is kept as the code has it, and a member below states exactly when it matters.

- With `-`, precision zeros are skipped; a precision or zero-padded width beyond 32 is cut; a sign is dropped when 32
  characters are used up (`NumberTheorems.TextMeetsStandard`; `%-.3d` of 7 is `LeftSkipsZeros`). `#` overwrites leading
  digits of a full field, adds a zero to octal numbers that have one, and prints nothing for an octal zero of precision 0
  (`NumberTheorems.HashKeepsDigits`, `HashTheorems.HashMeetsStandard`, `HashTheorems.HashOfZero`).
- `%lld`, `%llu`, `%jd` and the like print nothing and take no argument, so that the next directive gets it
  (`FormatTheorems.LongLongTakesNothing`, `FormatTheorems.LongLongShifts`).
- A format that ends inside a directive, such as a lone `%`, makes the cursor step over the NUL; a format does so exactly
  if no arguments give it a meaning (`FormatCursor.CursorLoop`, `FormatTheorems.PercentAlone`).
- `sbrk` compares a 32-bit sum with the end of the heap. When no listed block suits and break + header + size is at least
  2^32 but wraps to an address below HEAP_END, `malloc` succeeds although there is no room: after `malloc(16)`,
  `malloc(0xFFFFFFF0)` returns the address that the next call returns again (`HeapModel.WrappedRequest`); after
  `malloc(0x7FFFFFD0)` the break is zero and the next call gets the first block again (`HeapModel.WrappedBelowTwo31`). malloc
  keeps the heap well formed exactly in all other cases (`HeapModel.MallocWellFormed`), among them every request of up to
  2^32 - HEAP_END bytes with its header (`HeapModel.ModestSize`). The product in `calloc` wraps as well:
  `calloc(0x10000, 0x10000)` hands out zero bytes (`HeapRuns.CallocWraps`). `HeapRuns.StepSound` gives the exact
  condition for every operation. Where the signed sum overflows, the model takes it to wrap.
- After a failed first `malloc` the list head is -1 (`HeapRuns.FirstAllocation`). Blocks that `sbrk` adds later are
  never reused (`HeapRuns.LooseNeverReused`). The tests of `free` and `realloc` for a null block do not
  catch the null pointer (`HeapModel.NullNotCaught`), so both require a payload pointer here. A `realloc` that finds no
  room copies the block to the null pointer and then frees it; it does so exactly if the copy goes through
  (`HeapRuns.FailedReallocFrees`), which depends on the bus and on the constant `HeapModel.LOW_STORES`.
- The `data` member of a block starts at offset 13, not at the header size 16 that `free` and `realloc` subtract
  (`Allocator.FreeAtOffset13`); `free` marks a block exactly if the two are equal (`Allocator.FreeAtOffset`), as the model
  takes them to be through the constant `Allocator.DATA_OFFSET`.
- `string_append_len` can put its NUL one past the buffer (`GrowString.AppendFits`, `AppendOverruns`).
- A store to INTERRUPT_ACK sets the interrupt status instead of clearing bits of it
  (`VirtioRegisters.AckKeepsInterrupt`).
- The DRIVER_OK test never succeeds (`VirtioRegisters.NeverCached`); status bytes stored one by one can reset the
  device on the way (`VirtioRegisters.StatusBytesReset`, `StatusBytesForget`); the used ring is one alignment unit late
  when the available ring ends on a boundary (`VirtioQueue.UsedIsRoundUp`, `UsedIsLate`); the head index
  is fetched at byte `idx % 8` of the ring, which is right exactly for multiples of 8 (`VirtioDisk.HeadPlaceInRing`,
  `HeadOfIndexOne`).
- A guest store to LSR can lose or invent a byte and lose a wake-up, and an end of input delivers the last byte again, or
  a zero
  (`UartModel.LosslessStep`, `WakeUpStep`, `InputStep`; inputs in `StoreLosesByte`, `StoreLosesWakeUp`,
  `EndDeliversAgain`, `EndDeliversZero`). The UART's interrupt flag is set once a byte was delivered and never cleared
  (`UartModel.FlagMeansDelivered`), so that every check raises SEI from then on (`Interrupts.UartNeverQuiet`), and SSI and
  STI are taken exactly if SEI is not enabled (`Interrupts.UartStarves`, `Interrupts.SoftwareStarved`).
- The PLIC keeps pending bits in word id / 4 instead of id / 32 (`Plic.StandardPendingWord`).

## Model

| member | source | states |
|---|---|---|
| Printf.Sink.Out | c_test/printf.c:214-239 | One call of an output function: the buffer sink stores only below the limit, the UART sink drops NULs, nothing else changes |
| Printf.Sink.Emit | c_test/printf.c:692 | The index passed to the sink is the number of characters sent before; the sink then shows one character more |
| Printf.Sink.Pad | c_test/printf.c:284-286 | The padding loops send exactly the missing spaces |
| Printf.StrnlenS | c_test/printf.c:256-261 | The smaller of the string's length and the limit |
| Printf.AtoiLoop | c_test/printf.c:268-274 | The wrapping decimal value and the cursor on the first non-digit |
| Printf.ReverseLoop | c_test/printf.c:290-292 | The scratch characters in reverse order, scratch untouched |
| Printf.OutRev | c_test/printf.c:277-302 | The scratch buffer reversed and padded to the width |
| Printf.ZeroLoop | c_test/printf.c:315-321 | Zeros up to the requested length or the end of the scratch buffer |
| Printf.PushChar | c_test/printf.c:342-355 | One more scratch character if there is room |
| Printf.HashBlock | c_test/printf.c:325-345 | The `#` prefix, taking back characters of a full field |
| Printf.NtoaFormat | c_test/printf.c:305-358 | The sink receives exactly the formatted number |
| Printf.DigitLoop | c_test/printf.c:375-381 | The loop stores all digits of the value, never stopping early at the end of the buffer |
| Printf.NtoaLong | c_test/printf.c:361-386 | The sink receives exactly the text of the value |
| Printf.FlagLoop | c_test/printf.c:701-733 | Flags and cursor after the flag loop |
| Printf.WidthField | c_test/printf.c:736-748 | Width, flags, cursor and arguments after the width field |
| Printf.PrecisionField | c_test/printf.c:751-762 | Precision, flags, cursor and arguments after the precision field |
| Printf.LengthField | c_test/printf.c:765-801 | Flags and cursor after the length field |
| Printf.ReadDirective | c_test/printf.c:700-801 | The locals hold the parsed directive, without reading past the format |
| Printf.IntegerCase | c_test/printf.c:805-891 | The integer conversions send their text and consume their argument |
| Printf.CharCase | c_test/printf.c:916-934 | The `c` conversion |
| Printf.StringLoop | c_test/printf.c:949-951 | The string, cut to the precision, never read past its NUL |
| Printf.StringCase | c_test/printf.c:936-960 | The `s` conversion |
| Printf.ConvertCase | c_test/printf.c:804-992 | Every conversion character, unknown ones printing themselves |
| Printf.FormatLoop | c_test/printf.c:688-993 | The interpreter loop refines Render: it sends the whole text, returns its length, and leaves the cursor on the NUL |
| Printf.Terminate | c_test/printf.c:995-996 | The buffer ends as the text cut to maxlen - 1 characters and a NUL, or untouched if maxlen is 0 |
| Printf.Vsnprintf | c_test/printf.c:678-1000 | For every sink, limit and meaningful format: the count, the buffer and the UART output |
| Printf.Truncation | c_test/printf.c:214-219 | Output under a limit is the longest fitting prefix of the output under a larger one, then NUL; nothing at or beyond the limit changes |
| Printf.Snprintf | c_test/printf.c:1021-1027 | The full count, and the truncated text in the buffer |
| Printf.Sprintf | c_test/printf.c:1013-1019 | The whole text, a NUL, and the rest of the buffer untouched |
| Printf.PrintfC | c_test/printf.c:1004-1011 | The text without its NULs goes to the UART |
| Printf.VisibleWhole | c_test/printf.c:233-239 | Text without NULs reaches the UART whole, and a NUL does not |
| NumberText.DigitsArePositional | c_test/printf.c:375-381 | The digits are the little-endian positional expansion of the value, in every base from 2 to 16 |
| NumberText.DigitsAreNumerals | c_test/printf.c:377-379 | Every digit is a numeral of the base in the requested case |
| NumberText.DigitAt | c_test/printf.c:375-381 | Digit i is the character 0 to 9, a to f or A to F of the value divided i times by the base, modulo the base |
| NumberText.NoLeadingZero | c_test/printf.c:375-381 | No value but zero has a leading zero digit |
| NumberText.DigitCount | c_test/printf.c:375-381 | A value has at most n digits exactly when it is below base^n |
| NumberText.DigitsFit | c_test/printf.c:381 | The digits of a 32-bit value fit the 32-byte buffer |
| NumberTheorems.ScratchBounded | c_test/printf.c:305-357 | For all flags, widths and precisions the scratch length stays within 32 |
| NumberTheorems.FormatShape | c_test/printf.c:305-358 | The printed number is spaces, sign, zeros, digits, spaces, with these counts |
| NumberTheorems.TextMeetsStandard | c_test/printf.c:361-386 | Integer conversions print what section 7.21.6.1 of ISO C11 asks for exactly under the condition MeetsStandard |
| NumberTheorems.LeftSkipsZeros | c_test/printf.c:310-322 | `%-.3d` of 7 prints 7 instead of 007 |
| NumberTheorems.FieldWidth | c_test/printf.c:277-358 | The number of characters is max(width, sign + max(digits, precision)) wherever the standard is met |
| NumberTheorems.HashKeepsDigits | c_test/printf.c:324-345 | A `#` conversion keeps all digits of its value exactly when the columns it takes back are padding zeros |
| NumberTheorems.HashDropsDigits | c_test/printf.c:326-331 | `%#4x` of 0x1234 prints 0x34 |
| HashTheorems.HashMeetsStandard | c_test/printf.c:305-386 | A `#` conversion of a nonzero value prints the alternative form of section 7.21.6.1 of ISO C11 exactly under the condition MeetsAlternative |
| HashTheorems.HashOfZero | c_test/printf.c:361-369 | A zero with `#` is printed as there exactly if it would be without `#` and is not an octal one of precision 0 |
| HashTheorems.HashDirective | c_test/printf.c:805-837 | Every integer directive with an effective `#` falls under these two |
| FormatTheorems.RenderConcat | c_test/printf.c:688-993 | Concatenated formats render to concatenated texts, the second with the arguments the first left |
| FormatTheorems.CompleteFormatsRender | c_test/printf.c:988-991 | A format has a meaning for some arguments exactly when it is complete |
| FormatTheorems.PercentAlone | c_test/printf.c:988-991 | A lone `%` is incomplete and has no meaning |
| FormatTheorems.LongLongTakesNothing | c_test/printf.c:840-891 | An integer directive consumes its argument exactly if it is not a long long one |
| FormatTheorems.LongLongShifts | c_test/printf.c:840-891 | `%lld%d` with a long long 5 and an int 7 prints 5 |
| FormatCursor.SkipFields | c_test/printf.c:700-801 | On memory, reading a directive's fields advances the cursor as parsed and never past the NUL |
| FormatCursor.CursorLoop | c_test/printf.c:688-991 | On memory with any bytes behind the NUL, the cursor stops on the NUL exactly if the format has a meaning for some arguments, and otherwise steps past it |
| FormatMeaning.DirectiveReads | c_test/printf.c:700-801 | Any spelling of flags, width, precision, length and conversion is read as these flags and numbers, with numbers modulo 2^32 and `*` arguments by their sign |
| FormatMeaning.PlainText | c_test/printf.c:690-695 | Text without `%` prints itself |
| FormatMeaning.StringPrints | c_test/printf.c:936-960 | `%s` prints the whole string without a `.`, its first characters up to the precision with one, in a field of spaces, left aligned by `-` or a negative width |
| FormatMeaning.MessagePrints | c_test/global.c:7 | `Message: {%s}` shows any string whole |
| FormatMeaning.CharPrints | c_test/printf.c:916-934 | `%c` prints the low byte of its argument in the same field |
| FormatMeaning.OtherPrints | c_test/printf.c:984-992 | `%%` and unknown conversions print their character and take no argument |
| FormatMeaning.SignedPrints | c_test/printf.c:840-865 | `%d` and `%i` print the argument, narrowed by h and hh, in decimal, as the standard says exactly under MeetsStandard |
| FormatMeaning.UnsignedPrints | c_test/printf.c:812-891 | `%u`, `%x`, `%X`, `%o`, `%b` do so in bases 10, 16, 16, 8, 2, `%X` in upper case, and ignore + and space |
| FormatMeaning.AlternativePrints | c_test/printf.c:812-891 | With `#` the last four print the alternative form exactly under MeetsAlternative |
| FormatMeaning.LongLongPrints | c_test/printf.c:840-891 | With ll or j an integer prints nothing and takes nothing |
| FormatMeaning.PointerPrints | c_test/printf.c:962-982 | `%p` prints eight upper-case hexadecimal columns |
| FormatMeaning.AnyPointerPrints | c_test/printf.c:962-982 | With other flags or a precision, it is `_ntoa_long` in base 16 with these, width 8, zero padding and upper case |
| FormatTheorems.DirectiveArguments | c_test/printf.c:805-837 | Every integer directive without `#` falls under TextMeetsStandard |
| RoundTrip.Converter.Str2Int | c_test/standard.c:9-33 | The static result cell and the null result of str2int |
| RoundTrip.HornerOfDigits | c_test/printf.c:375-381 | Printed decimal digits, read from the left, are the value |
| RoundTrip.AtoiReadsDigits | c_test/printf.c:268-274 | `_atoi` on printed digits returns the value with the cursor on the first non-digit |
| RoundTrip.ParseIsHorner | c_test/standard.c:13-31 | str2int accumulates any numeral that fits an int, with either sign |
| RoundTrip.ParseAnyBase | c_test/standard.c:13-31 | In every base the digits are read as a numeral modulo 2^32, negated by a minus anywhere, and any other character fails |
| RoundTrip.PrintParse | c_test/printf.c:840-865 | Printing with `%d` and reading back gives the same int exactly under the condition ReadsBack |
| RoundTrip.PlainPrintParse | c_test/printf.c:305-358 | In particular without sign flags and `-`, precision at most 31, and no width or zero padding to at most 32 |
| RoundTrip.DirectiveParse | c_test/printf.c:700-865 | What any format of one `%d` or `%i` directive, with all its fields, renders is read back as the value exactly under ReadsBack |
| RoundTrip.FormatParse | c_test/standard.c:9-33 | In particular, what the format `%d` renders for n parses to n |
| HeapModel.MallocWellFormed | c_test/mem.c:67-139 | malloc keeps the blocks tiling the space from HEAP_START to the break exactly if the new break does not wrap |
| HeapModel.MallocFails | c_test/mem.c:107-113 | malloc returns NULL exactly if no listed block suits and the new break is refused |
| HeapModel.NullNotCaught | c_test/mem.c:145-148 | The block address tested for null is null exactly for the pointer 16, not for the null pointer |
| HeapModel.ModestSize | c_test/mem.c:53-61 | Requests up to 2^32 - HEAP_END, header included, never wrap |
| HeapModel.WrappedRequest | c_test/mem.c:107-119 | A wrapping request is granted, and the next one gets the same address |
| HeapModel.CarveTiles | c_test/mem.c:122-133 | Splitting a block keeps the tiling |
| HeapModel.WrappedBelowTwo31 | c_test/mem.c:53-61 | After malloc(16) a request of 0x7FFFFFD0 bytes is granted too |
| HeapModel.MallocIsFirstFit | c_test/mem.c:94-120 | The heap grows exactly when no listed block suits; otherwise the lowest-addressed one is taken. Growing succeeds exactly with room below HEAP_END or a break that wraps |
| HeapModel.MallocTakes | c_test/mem.c:122-138 | A listed block of more than size + 16 bytes is split in a used part and a free one of size - 16 bytes less, which joins the list; any other is taken whole; nothing else changes |
| HeapModel.MallocGrows | c_test/mem.c:107-120 | Otherwise a used, unlisted block of that size is added at the break |
| HeapModel.FirstMalloc | c_test/mem.c:71-92 | The first block starts at 0x80000000 and its payload 16 bytes later |
| HeapModel.RemainderServes | c_test/mem.c:123-133 | What is left of a split block serves the next request that fits it, without moving the break |
| HeapModel.RemainderRun | c_test/mtest.c:9-38 | malloc(40), free, calloc(11, 1), free, malloc(12) ends at 0x8000002B |
| HeapModel.ReallocInPlace | c_test/mem.c:163-166 | A block that is big enough stays where it is |
| HeapModel.ReallocMoves | c_test/mem.c:168-171 | One that is too small is freed when malloc has found another |
| HeapModel.ReallocFails | c_test/mem.c:168-171 | And freed when malloc found none, unless the copy to the null pointer traps |
| HeapModel.FreeMarks | c_test/mem.c:142-152 | free marks the block of the pointer and no other |
| HeapModel.TilesApart | c_test/mem.c:43-139 | Two blocks of a tiling never overlap and lie inside it |
| HeapRuns.MallocKeepsBlocks | c_test/mem.c:67-139 | malloc returns a block that was not in use and leaves the blocks in use as they are |
| HeapRuns.LiveInUse | c_test/mem.c:67-172 | The pointers in use are exactly those the client owns |
| HeapRuns.ReallocSound | c_test/mem.c:154-172 | realloc moves ownership from the old block to one large enough, or to none if it fails, or traps and changes nothing, exactly if it does not have to grow the heap by a wrapping break |
| HeapRuns.FailedReallocFrees | c_test/mem.c:168-171 | A realloc fails exactly if the block is too small and malloc refuses, and has then freed the old block exactly if the copy to the null pointer went through |
| HeapRuns.StepSound | c_test/mem.c:67-172 | A legal operation keeps the blocks in use equal to what the client owns, each as large as asked for, exactly if no 32-bit sum wraps, nor a product that is then granted |
| HeapRuns.CallocWraps | c_test/mem.c:223-232 | calloc(0x10000, 0x10000) returns a block of no bytes |
| HeapRuns.RunSound | c_test/mem.c:67-172 | So does every run of such operations |
| HeapRuns.LivePayloadsDisjoint | c_test/mem.c:43-139 | After any run of operations that do not wrap the blocks tile the heap, and owned payloads are disjoint, large enough and below HEAP_END |
| HeapRuns.ListConserved | c_test/mem.c:94-133 | Headers and payloads of the listed blocks always add up to the first block's extent, which bounds the walk |
| HeapRuns.LooseNeverReused | c_test/mem.c:107-120 | A block added behind the list is never returned again |
| HeapRuns.FirstAllocation | c_test/mem.c:71-81 | The list head is lost exactly when the first request does not fit and its sum does not wrap |
| Allocator.MemC.Sbrk | c_test/mem.c:43-64 | The old break, or failure if the wrapped sum is at or beyond the end of the heap |
| Allocator.MemC.WriteHeader | c_test/mem.c:84-87 | A header's fields in memory, and no other byte changed |
| Allocator.MemC.Shrink | c_test/mem.c:130-131 | The next pointer and size of a split block |
| Allocator.MemC.SetFree | c_test/mem.c:151 | Only the flag byte changes |
| Allocator.MemC.Search | c_test/mem.c:95-104 | The walk over next pointers ends at the first suitable block, or at null exactly if there is none |
| Allocator.MemC.SplitBlock | c_test/mem.c:123-133 | Both headers of a split, inside the old block's extent |
| Allocator.MemC.TakeBlock | c_test/mem.c:122-138 | Memory represents the heap after taking a listed block, all payloads in use kept |
| Allocator.MemC.FirstBlock | c_test/mem.c:71-92 | The first allocation; the heap stays valid exactly if its break does not wrap |
| Allocator.MemC.Extend | c_test/mem.c:107-120 | A block at the break, all payloads in use kept, and the heap valid exactly if the break does not wrap |
| Allocator.MemC.MallocC | c_test/mem.c:67-139 | malloc on memory computes the function Malloc and keeps every payload in use; the heap stays valid exactly if its break does not wrap |
| Allocator.MemC.FreeC | c_test/mem.c:142-152 | free on memory computes the function Free and keeps every payload in use |
| Allocator.MemC.Memcpy | c_test/mem.c:183-190 | The bytes are copied, nothing else changes |
| Allocator.MemC.Memset | c_test/mem.c:175-180 | The bytes are set, nothing else changes |
| Allocator.MemC.CopyPayload | c_test/mem.c:169 | Copying between payloads disturbs no header and no other payload |
| Allocator.MemC.MovePayload | c_test/mem.c:168-171 | Copy, then free: the contents are at the new place, the old block is free, every other payload in use is kept |
| Allocator.MemC.ClearPayload | c_test/mem.c:229 | Clearing a payload disturbs no header and no other payload |
| Allocator.MemC.ReallocC | c_test/mem.c:154-172 | realloc on memory computes the function Realloc, keeps every other payload, and, unless it returns NULL, the old contents at the returned place |
| Allocator.MemC.CallocC | c_test/mem.c:223-232 | calloc returns a payload of the wrapped product, zeroed, and keeps every other one |
| HeapClient.Client.Malloc | c_test/mem.c:67-139 | A client's buffers stay as they are, and a new one is added unless the request is refused |
| HeapClient.Client.Calloc | c_test/mem.c:223-232 | The same, and the new buffer is zero |
| HeapClient.Client.Free | c_test/mem.c:142-152 | One buffer is removed, the others stay as they are |
| HeapClient.Client.Load | c_test/mem.c:187 | A buffer reads back what was last stored or moved there |
| HeapClient.Client.Store | c_test/mem.c:177 | A store changes one byte of one buffer |
| HeapClient.Client.Realloc | c_test/mem.c:154-172 | One buffer moves with its contents up to the smaller size, or is lost, or stays when the copy traps; the others stay as they are |
| HeapClient.AfterMalloc | c_test/mem.c:67-139 | Memory and heap agree with the client's buffers after a malloc |
| HeapClient.ReallocBuffers | c_test/mem.c:154-172 | And after a realloc |
| Allocator.FreeAtOffset | c_test/mem.c:142-152 | free marks a block exactly if its data starts right behind the header; at a smaller offset it overwrites the size |
| Allocator.FreeAtOffset13 | c_test/mem.c:15-21 | With data at offset 13, free leaves a 16-byte block in use with a size of 0x110 |
| VirtioRegisters.MergeLanes | src/devices/viritio.rs:469-483 | A store changes exactly the byte lanes it touches, as seen by later byte loads |
| VirtioRegisters.WordStores | src/devices/viritio.rs:423-497 | A word store at each of eight addresses sets that register and nothing else |
| VirtioRegisters.SelectedStores | src/devices/viritio.rs:427-440 | The feature word the selector picks, and the queue selector that must be zero |
| VirtioRegisters.StatusWordStore | src/devices/viritio.rs:498-512 | A zero status resets the request count and interrupt status; bit 7 panics |
| VirtioRegisters.OtherStores | src/devices/viritio.rs:465-465 | Any other address faults |
| VirtioRegisters.SubWordStores | src/devices/viritio.rs:469-483 | A store of any size at any byte of a register is a word store of its value with those lanes merged in |
| VirtioRegisters.WordLoads | src/devices/viritio.rs:376-416 | The value of a word load at each address |
| VirtioRegisters.OtherLoads | src/devices/viritio.rs:406-406 | Any other address faults |
| VirtioRegisters.ExtractLanes | src/devices/viritio.rs:409-413 | A sub-word load gives the lanes from its offset on |
| VirtioRegisters.AckKeepsInterrupt | src/devices/viritio.rs:444-455 | A store to INTERRUPT_ACK sets the used buffer bit as stored; it acknowledges only when there is nothing to acknowledge |
| VirtioRegisters.ByteStoresMakeWord | src/devices/viritio.rs:469-483 | Byte stores to all offsets in any order make the word |
| VirtioRegisters.ByteStoresAreWordStore | src/devices/viritio.rs:419-497 | On the bus, byte stores covering a register other than status, queue selector and feature words of no existing selector leave the device as one word store does |
| VirtioRegisters.StatusBytesReset | src/devices/viritio.rs:498-503 | On the status register, panics included, they have the effect of the word store exactly if the word sets FAILED, or no byte store does and there is nothing to reset, zero is stored, or no byte store leaves zero |
| VirtioRegisters.StatusBytesForget | src/devices/viritio.rs:498-503 | From status 1, storing 0x100 byte by byte forgets the request count; the word store does not |
| VirtioRegisters.QueuePfnLanes | src/devices/viritio.rs:394-413 | A sub-word store to QUEUE_PFN is visible in its lanes only |
| VirtioRegisters.NeverCached | src/devices/viritio.rs:504-507 | No store remembers a queue address |
| VirtioQueue.QueueLayout | src/devices/viritio.rs:166-185 | Descriptors, available ring and aligned used ring are disjoint, the last at most one unit late |
| VirtioQueue.LayoutIs | src/devices/viritio.rs:166-185 | The three addresses from page number, page size, alignment and queue size, and exactly when they overflow |
| Virtio.SetUpQueue | src/devices/viritio.rs:486-497 | The driver's four word stores set up the queue with the layout of their values |
| VirtioQueue.UsedIsRoundUp | src/devices/viritio.rs:182-183 | The used ring is at the round-up address of section 2.6.2 of Virtio 1.1 exactly when the available ring does not end on a boundary |
| VirtioQueue.UsedIsLate | src/devices/viritio.rs:182-183 | For one element at 0x1000 with alignment 8 the used ring is at 4128, not at 4120 |
| VirtioQueue.EvenQueueRoundsUp | src/devices/viritio.rs:166-185 | So it is for even queue sizes, alignments that are multiples of 4 and aligned bases |
| VirtioDisk.HeadPlaceInRing | src/devices/viritio.rs:545-549 | The head is fetched at its entry of the available ring (section 2.6.6 of Virtio 1.1) exactly for indices that are multiples of 8 |
| VirtioDisk.HeadOfIndexOne | src/devices/viritio.rs:545-549 | For index 1 the head is put together from two entries |
| Virtio.Device.constructor | src/devices/viritio.rs:292-320 | The device starts in the reset state |
| Virtio.Device.Reset | src/devices/viritio.rs:353-359 | The request count and the interrupt status are cleared |
| Virtio.Device.IsInterrupting | src/devices/viritio.rs:362-368 | A notification is seen exactly once |
| Virtio.Device.Assign | src/devices/viritio.rs:486-497 | The addressed register, and no other, gets the merged value |
| Virtio.Device.SetStatus | src/devices/viritio.rs:498-512 | The side effects of a new status |
| Virtio.Device.Write | src/devices/viritio.rs:419-517 | The register file after a store, with its faults and panics |
| Virtio.Device.CopyLoop | src/devices/viritio.rs:584-595 | A DMA loop copies all bytes, or the ones before the first that does not exist |
| Virtio.Device.Transfer | src/devices/viritio.rs:580-596 | The transfer of a request in either direction, and what it leaves when it fails |
| Virtio.Device.LoadDesc | src/devices/viritio.rs:226-233 | A descriptor from little-endian memory |
| Virtio.Device.LoadHead | src/devices/viritio.rs:542-549 | The head index at the address the source computes |
| Virtio.Device.LoadChained | src/devices/viritio.rs:552-563 | A descriptor that must continue its chain |
| Virtio.Device.FetchRequest | src/devices/viritio.rs:542-578 | The request behind a chain |
| Virtio.Device.FinishRequest | src/devices/viritio.rs:605-644 | Status byte, used element, request count and used index, as far as they get |
| Virtio.Device.ServeRequest | src/devices/viritio.rs:580-644 | Transfer and completion of a request, and what a failed one leaves behind |
| Virtio.Device.DiskAccess | src/devices/viritio.rs:529-647 | Success exactly when the request goes through; disk, memory and count are as specified either way |
| VirtioDisk.FailedRequest | src/devices/viritio.rs:580-644 | Even a failed request changes the disk only under a write and in its own sectors, and memory only in its buffer, the status byte and the used element |
| VirtioDisk.CompletionStores | src/devices/viritio.rs:605-644 | Exactly when the completion's stores exist, and what is done of them otherwise |
| VirtioChain.ChainServed | src/devices/viritio.rs:529-647 | From the bytes of three descriptors: with WRITE in the second the buffer is filled from disk byte 512 * sector on, without it these bytes are written from the buffer; status, used element and index follow, and nothing else changes; served exactly if the bytes exist |
| VirtioChain.BrokenChain | src/devices/viritio.rs:551-603 | A chain without NEXT in its first two descriptors, or with it in the third, is not served |
| VirtioRuns.RequestEffect | src/devices/viritio.rs:529-647 | A proper request goes through exactly when it is in range; memory changes only in read buffer, status byte and used ring, the disk only under a write |
| VirtioRuns.FinishEffect | src/devices/viritio.rs:605-644 | The completion stores land in separate places and are all visible afterwards |
| VirtioRuns.RingAdvances | src/devices/viritio.rs:628-644 | A completion enters its head and keeps the seven before it |
| VirtioRuns.StepConsistent | src/devices/viritio.rs:529-647 | Guest writes and requests keep disk and used ring consistent with the history |
| VirtioRuns.DiskIsLastWrite | src/devices/viritio.rs:519-596 | After any run each disk byte holds what the last write covering it wrote |
| VirtioRuns.ReadSeesLastWrite | src/devices/viritio.rs:589-595 | A read request fills its buffer with the bytes last written |
| VirtioRuns.UsedRingHistory | src/devices/viritio.rs:628-644 | The used index is the number of requests modulo 2^16 and the slots hold the last eight heads, also after the count wraps |
| UartModel.LosslessStep | src/devices/uart.rs:114-157 | From a lossless state a step is lossless exactly if the guest does not change RX by a store |
| UartModel.WakeUpStep | src/devices/uart.rs:78-84 | A step keeps the wake-up promise unless such a store meets a waiting reader, and then it breaks it |
| UartModel.InputStep | src/devices/uart.rs:73-84 | A step keeps the input exactly if it is not an end of input |
| UartModel.StoreLosesByte | src/devices/uart.rs:152-154 | A store to LSR before the byte is taken loses it |
| UartModel.StoreLosesWakeUp | src/devices/uart.rs:152-154 | A store to LSR while the reader waits leaves it waiting for nothing |
| UartModel.EndDeliversAgain | src/devices/uart.rs:73-84 | One byte and the end of input deliver two bytes |
| UartModel.UartLossless | src/devices/uart.rs:71-129 | Under every interleaving the bytes taken and buffered are exactly the bytes delivered, in order |
| UartModel.UartKeepsInput | src/devices/uart.rs:71-129 | Taken, buffered and held bytes together are standard input |
| UartModel.UartWakesUp | src/devices/uart.rs:78-125 | A blocked un-notified reader finds RX set, and the next RHR load notifies it |
| UartModel.FlagMeansDelivered | src/devices/uart.rs:82-100 | In every reachable state the interrupt flag is set exactly if a byte was delivered, and it stays set |
| UartModel.NotifiedDelivers | src/devices/uart.rs:78-84 | A woken reader that finds RX clear delivers its byte |
| UartModel.LsrAfter | src/devices/uart.rs:71-157 | LSR after every step: a delivery sets bit 0, an RHR load clears it, a store to it replaces it |
| UartModel.OtherBitsKept | src/devices/uart.rs:119-129 | All other bits of LSR survive every event but a store to it |
| UartModel.RegistersOfRun | src/devices/uart.rs:57-157 | In every reachable state RHR holds the last delivery, other registers the last store, and LSR 0x20 or 0x21 if never stored to |
| UartModel.EndDeliversZero | src/devices/uart.rs:68-84 | An end of input before any byte delivers a zero |
| Uart.Uart.constructor | src/devices/uart.rs:57-96 | TX is set, RX is clear, the reader reads |
| Uart.Uart.ReadStdin | src/devices/uart.rs:73-74 | A read of standard input, or its end |
| Uart.Uart.Deliver | src/devices/uart.rs:76-84 | Under the mutex the reader waits or delivers |
| Uart.Uart.WakeUp | src/devices/uart.rs:79 | The wait returns, notified or spuriously |
| Uart.Uart.IsInterrupting | src/devices/uart.rs:98-100 | The interrupt flag |
| Uart.Uart.Load | src/devices/uart.rs:114-129 | A CPU load: its value, the notification, RX |
| Uart.Uart.Store | src/devices/uart.rs:130-157 | A CPU store: printing, or the addressed byte |
| GrowString.AmortisedGrowth | c_test/string.c:96-151 | After n appends n < capacity <= 2n and fewer than 2n bytes were copied by growing |
| GrowString.AppendFits | c_test/string.c:123-134 | The NUL of string_append_len stays in the buffer exactly if length + n is below twice the capacity |
| GrowString.AppendOverruns | c_test/string.c:123-134 | Two bytes appended to an empty string put the NUL one past the buffer |
| GrowString.AppendFitsUngranted | c_test/string.c:96-108 | Without memory it does exactly if no growth was needed |
| GrowString.GString.constructor | c_test/string.c:73-88 | The string's contents and capacity |
| GrowString.NewLen | c_test/string.c:73-88 | The same, or null exactly if one of the two allocations fails |
| GrowString.GString.Grow | c_test/string.c:96-108 | Growing keeps the contents; without memory nothing changes |
| GrowString.GString.AppendLen | c_test/string.c:123-134 | Contents, NUL and capacity after an append, and exactly when it leaves the buffer |
| GrowString.GString.AppendChar | c_test/string.c:140-151 | Contents, NUL and capacity after a character, and exactly when the NUL leaves the buffer |
| GrowString.GString.Data | c_test/string.c:153-158 | The buffer, with a NUL appended as a character, and exactly when that leaves the buffer |
| GrowString.GetString | c_test/standard.c:39-67 | The buffer holds the input up to the newline and a NUL |
| Plic.RaiseAdds | src/devices/plic.rs:107-109 | Setting a pending bit adds exactly that id |
| Plic.LowerRemoves | src/devices/plic.rs:115-117 | Clearing a pending bit removes exactly that id |
| Plic.StandardPendingWord | src/devices/plic.rs:108 | In the standard's pending word only ids below 4 show up |
| Plic.EnableBits | src/devices/plic.rs:132-136 | Id i is enabled by bit i mod 32 of word i / 32 of its context's 32 words |
| Plic.PlicIsSet | src/devices/plic.rs:107-129 | Over every run with ids below 32 the pending words are the set of outstanding ids, and a nonzero claim is outstanding and enabled |
| Plic.Controller.constructor | src/devices/plic.rs:92-100 | Nothing is pending, enabled or claimed |
| Plic.Controller.IsEnable | src/devices/plic.rs:132-136 | The enable bit of an id in a context |
| Plic.Controller.UpdateClaim | src/devices/plic.rs:123-129 | An enabled id or zero becomes the claim of context 1 |
| Plic.Controller.UpdatePending | src/devices/plic.rs:107-112 | An id below 32 becomes pending, and claimed if enabled; any other overflows the shift |
| Plic.Controller.ClearPending | src/devices/plic.rs:115-120 | A completion of an id below 32 removes it and zeroes the claim; any other value overflows the shift |
| Plic.Controller.GetInterrupt | src/devices/plic.rs:237-243 | A reported id is pending and enabled |
| Interrupts.DrainIsPriorityOrder | src/main.rs:164-197 | What Settle takes is each enabled pending interrupt once, in the order of section 3.1.9 of the RISC-V Privileged Architecture, leaving the rest |
| Interrupts.UartNeverQuiet | src/main.rs:122-153 | Under a set UART flag, check number k takes an interrupt exactly if SEI is enabled or more than k interrupts were pending and enabled |
| Interrupts.UartStarves | src/main.rs:164-197 | Under a set UART flag an enabled pending interrupt is taken within as many checks as there were, exactly unless it is SSI or STI and SEI is enabled; then never |
| Interrupts.UartTakesAt | src/main.rs:164-197 | Each one not starved is taken right after those of higher priority |
| Interrupts.OpenByPrivilege | src/main.rs:88-119 | Checks pass in machine mode with MIE, in supervisor mode with SIE, in user mode always, and never when the CLINT fires |
| Interrupts.SoftwareStarved | src/main.rs:164-197 | With SEI and SSI enabled and SSI pending, no check takes SSI |
| Interrupts.Machine.PollDevices | src/main.rs:121-140 | The external source, with the disk access a notification starts |
| Interrupts.Machine.TakeFirst | src/main.rs:164-197 | The first enabled pending interrupt is taken and cleared |
| Interrupts.Machine.CheckInts | src/main.rs:76-198 | Early exits, the device poll, the PLIC, MIP, and the interrupt taken |
| Interrupts.Machine.Settle | src/main.rs:76-198 | Before any byte was delivered, checking until None takes the enabled pending interrupts in priority order |
| Interrupts.Machine.CheckUnderUart | src/main.rs:122-198 | Once a byte was delivered, n checks take what UnderUart says: they are quiet only as UartNeverQuiet says, and starve what UartStarves says |

## Left out

- Printf.Vsnprintf: the text must be shorter than 2^32 characters, because the source counts in a `size_t`; with an
  argument list that does not fit the format, or whose `%d` or `*` argument is INT_MIN, C leaves the behaviour undefined
  and so does the model.
- RoundTrip.PrintParse: excludes INT_MIN, whose negation overflows an int in both functions.
- RoundTrip.Converter.Str2Int: the message printed for a non-digit is not modelled.
- Allocator.MemC.CallocC: requires that the new break does not wrap, as does ReallocC: otherwise the source goes on to fill
  memory far beyond the heap. MallocC covers that case.
- Allocator.MemC.ReallocC: after a failed malloc the source copies the old contents to addresses from zero on; these are
  not in the modelled memory, and whether the bus accepts the stores is the constant HeapModel.LOW_STORES, of which nothing
  is assumed.
- HeapModel.MallocWellFormed: what further calls do on a heap whose break has wrapped is shown by an input only.
- Allocator.DATA_OFFSET: payloads start right behind the header; see FreeAtOffset13 for the compiled layout.
- Virtio.Device.DiskAccess: faults, panics and the 32-bit overflow of unchecked sums and products (a panic in a debug build)
  all count as failure, on which the emulator stops (`src/main.rs:137`); guest memory starts at address zero.
- Virtio.Device.Write: the configuration space is not modelled; masks and shifts by whole bytes are stated on byte lanes.
- Uart.Uart.Deliver: a step is one critical section; poisoned locks and read errors are not modelled.
- GrowString.GString.AppendLen: what is in memory after an append that leaves the buffer is not specified; doubling the
  capacity is taken not to overflow, as the heap is far smaller.
- GrowString.GString.Grow: whether malloc succeeds is a parameter; GetString assumes it does and that a newline arrives.
- Plic.Controller.UpdatePending: ids from 32 on count as failure, as in a debug build, where the overflowing shift panics;
  a 32-bit register is the set of its one bits. Priorities, thresholds and the register addresses are not modelled.
- Interrupts.Machine.CheckInts: the CLINT registers, the privilege and the enable bits are parameters; the UART's reader
  thread does not run between the checks of Settle.
- Float and `long long` printing, `fctprintf`, the stdio, signal and setjmp stubs: compiled out, or without behaviour.
- `strstr`, `string_shrink` beyond its use in get_string, `strcmp`, `strcpy`, `memcmp`, `memmove`, `fib.c`, `clint.rs`: easy members only.
- The command line, the step loop, logging and file loading: input and output.
- CPU, CSR file, bus and address translation are in another crate: CSRs are sets of bits, guest memory is bytes.
