# Agner Fog's C++ container examples and the pointer-chain shuffler, in Dafny

This project models the containers of the `cppexamples` directory and the list shuffler of
`testp/TestScripts/shufflelist.cpp`, and proves what their designs promise.

- **`StringPoolL`** keeps many strings in one byte buffer. Each string is a record: a 16-bit
  length word, the characters and a zero byte. An `Offsets` table maps each string handle to
  its record, and handles with offset 0 share an empty record at the start of the buffer.
  `Set`, `Concatenate` and `Allocate` reuse a record in place, grow the record at `Top`, or
  append a new record. `ReserveBuf` compacts the live records into a larger buffer, and
  `StringElement` gives access to single strings and characters.
- **`StringPoolW`** does the same with wide characters. It stores no length word, so a
  string's length is found by scanning for its zero.
- **`MixedPool`** appends objects of any size to a growable byte buffer and returns their
  offsets.
- **`DynamicArray`** and **`AlignedArray`** are growable arrays. `AlignedArray` also reads and
  writes groups of elements as SIMD vectors.
- **`SortedList`** is a fixed-capacity list kept sorted by binary search and `memmove`.
- **`FIFOlist`** is a circular queue, **`FILOlist`** is a stack, and **`SafeArray`** is a
  bounds-checked array.
- **`shuffle(listlen, stride, seed)`** seeds the Mersenne Twister `CRandomMersenne`
  (parameters MT11213A) and shuffles the list `0 .. listlen-1` with `StochasticLib1::Shuffle`.
  It then links the nodes into one circular chain in the shuffled order.

## How each container is modelled

Each container is a pure module: a datatype for its fields and one function per operation.
These functions are the specification, and the lemmas are proved about them. Each container
also has a class that updates arrays in place, as the source does. Every method's `ensures`
ties the new state `Abs()` to the function applied to `old(Abs())`.

**Errors.** Where the source calls `Error()` and exits, the model returns
`Err(<cause>)`, based on a `Result` type. A method that fails leaves the state as the source
has it when `Error()` is called. Usually that is the old state. There is one exception in
`StringPoolL`. Its `Set`, `SetN` and `SetToSubstring` first raise `Num` and may grow the
offset table (`Enter`, cppexamples/StringPoolL.cpp:255-261 and 294-300). Only then do they
refuse a string longer than 65535, so in that case the state after the error is `Enter` of
the old state. The class methods of both string pools state this with an
`e.Some? ==> Abs() == …` clause.

**New buffers.** A buffer from `new char[]` is modelled as filled with zeros.

**Integer widths.** Most fields are unbounded naturals. The 16-bit length word of
`StringPoolL` and the 32-bit words of the Mersenne Twister are modelled exactly: the length
word is taken modulo 65536, and the twister's words are `bv32` values.

**Source bugs.** Where the source breaks its own design, a `...AsWritten` function models the
code as written, next to a corrected function. The rest of the model uses the corrected
function; "## Findings" lists these cases.

## Model

| member | source | states |
|---|---|---|
| StringPoolLRecords.LengthWord | cppexamples/StringPoolL.cpp:279-281 | the two bytes stored as `*(LengthType*)p = len` are the little-endian value of `len mod 65536` |
| StringPoolLRecords.DecodeEncode | cppexamples/StringPoolL.cpp:279-283 | a record written at an offset reads back with the length word `len mod 65536` and that many of the characters written; when `len <= 65535` it is terminated and reads back exactly |
| StringPoolLRecords.WriteOutside | cppexamples/StringPoolL.cpp:283 | writing bytes outside a record leaves that record's length, characters and terminator unchanged |
| StringPoolLRecords.EmptySound | cppexamples/StringPoolL.cpp:226-229 | the state the constructor leaves (all fields zero, no buffers) satisfies the pool invariant |
| StringPoolLRecords.IdleIsEmpty | cppexamples/StringPoolL.cpp:268-270 | a handle whose offset is 0 reads the empty string |
| StringPoolLProofs.EnterValid | cppexamples/StringPoolL.cpp:255-262 | entering handle `i` (raising `Num`, growing `Offsets`) keeps the invariant |
| StringPoolLProofs.EnterSound | cppexamples/StringPoolL.cpp:255-262 | entering a handle keeps the stronger invariant (empty record at offset 0, every record terminated) |
| StringPoolLProofs.EraseValid | cppexamples/StringPoolL.cpp:266-273 | assigning the empty string keeps the invariant, and the old record's bytes are counted as garbage |
| StringPoolLProofs.EraseExact | cppexamples/StringPoolL.cpp:268-271 | after an erase, `DataSize - GarbageSize` still equals exactly the bytes the live records need |
| StringPoolLProofs.TailInPlaceValid | cppexamples/StringPoolL.cpp:512-522 | growing the record at `Top` in place, when it fits, keeps the invariant |
| StringPoolLProofs.ReuseValid | cppexamples/StringPoolL.cpp:524-530 | reusing a long-enough old record keeps the invariant; the unused tail moves from live bytes to `GarbageSize`, so their sum is unchanged |
| StringPoolLProofs.AppendValid | cppexamples/StringPoolL.cpp:532-543 | appending a record at `DataSize` keeps the invariant; handle `i` then reads the new characters and every other live handle reads what it read before |
| StringPoolLProofs.AppendReadySound | cppexamples/StringPoolL.cpp:535-543 | appending after the buffer was grown (and compacted) by `ReserveBuf` gives a sound pool |
| StringPoolLProofs.StoreValid | cppexamples/StringPoolL.cpp:505-544 | `Allocate` plus the write of the record succeeds and replaces handle `i`'s string, leaving every other handle's string as it was |
| StringPoolLProofs.StoreSound | cppexamples/StringPoolL.cpp:505-544 | the corrected `Allocate` plus write keeps the strong invariant for every string that fits the length word |
| StringPoolLProofs.StoreReplaces | cppexamples/StringPoolL.cpp:505-544 | after the store, handle `i` reads the new characters, the others read what they read before, and idle handles stay idle |
| StringPoolLProofs.TailInPlaceExact | cppexamples/StringPoolL.cpp:512-522 | when `DataSize - GarbageSize` was exactly what the records need, growing or shrinking the record at `Top` in place keeps it exact |
| StringPoolLProofs.AppendKeepExact | cppexamples/StringPoolL.cpp:532-543 | when the new record fits behind `DataSize`, counting the old record as garbage and appending the new one keep `DataSize - GarbageSize` exact |
| StringPoolLProofs.AppendGrowExcess | cppexamples/StringPoolL.cpp:532-543 | when the append has to grow the buffer, `GarbageSize` ends at 0 and `DataSize` is the empty record plus the live records plus the copied old record of handle `i`; the accounting is exact only when there was no old record to copy |
| StringPoolLCompaction.ReserveBufValid | cppexamples/StringPoolL.cpp:363-416 | the compacting reallocation keeps the invariant and leaves no garbage; the new buffer has `max(newsize, 2*(DataSize - GarbageSize) + 4096)` bytes plus the overhead, and the empty record at offset 0 |
| StringPoolLCompaction.ReserveBufContent | cppexamples/StringPoolL.cpp:381-400 | after compaction every handle reads the same string as before |
| StringPoolLCompaction.ReserveBufLive | cppexamples/StringPoolL.cpp:383-415 | after compaction `GarbageSize` is 0 and `DataSize` is the empty record plus the live records |
| StringPoolLCompaction.ReserveBufSound | cppexamples/StringPoolL.cpp:363-416 | compaction keeps the strong invariant |
| StringPoolLCompaction.ReserveBufTop | cppexamples/StringPoolL.cpp:391 | after compaction `Top` is the offset of the last record copied, or the empty record's end if none was copied |
| StringPoolLOps.ReserveNum | cppexamples/StringPoolL.cpp:420-447 | the offsets table grows to at least the requested size and at least twice its old size plus 1024; old entries are kept, new ones are 0; nothing else changes |
| StringPoolLOps.Enter | cppexamples/StringPoolL.cpp:254-262 | after entering `i`, `Num` is `max(Num, i+1)` and the table covers `i` |
| StringPoolLApi.SetSound | cppexamples/StringPoolL.cpp:253-288 | `Set(i, s)` fails for a negative `i` and for a string over 65535 characters; otherwise handle `i` reads the C string of `s`, the pool stays sound, and every other handle is unchanged |
| StringPoolLApi.SetValid | cppexamples/StringPoolL.cpp:253-288 | for any pool that meets the basic invariant, `Set(i, s)` of a string that fits succeeds with the outcome `SetOutcome` describes: handle `i` replaced, the others kept |
| StringPoolLApi.SetNSound | cppexamples/StringPoolL.cpp:292-323 | the corrected explicit-length `Set` refuses a string over 65535; otherwise it stores exactly the bytes given and leaves the others unchanged |
| StringPoolLApi.SetNValid | cppexamples/StringPoolL.cpp:292-323 | from any valid state, the explicit-length `Set` of a string that fits stores it and keeps the invariant |
| StringPoolLApi.LenReads | cppexamples/StringPoolL.cpp:451-459 | `Len(i)` fails for `i` outside `[0, Num)` and before any buffer exists; otherwise it is the length of the string handle `i` reads |
| StringPoolLApi.LenIsContent | cppexamples/StringPoolL.cpp:458 | the stored length word equals the length of the string the handle holds |
| StringPoolLApi.GetReads | cppexamples/StringPoolL.cpp:463-471 | `Get(i)` fails for `i` outside `[0, Num)`; otherwise it is the offset of the handle's characters, followed by a zero |
| StringPoolLApi.SearchFinds | cppexamples/StringPoolL.cpp:580-589 | `SearchForSubstring(s)` is -1 exactly when the C string `s` does not occur; otherwise it is the first position where it occurs |
| StringPoolLApi.CharAtReads | cppexamples/StringPoolL.cpp:608-614 | reading `strings[index][k]` fails outside `[0, Len)`; otherwise it yields character `k` |
| StringPoolLApi.SetCharAtWrites | cppexamples/StringPoolL.cpp:608-614 | writing `strings[index][k] = c` changes exactly character `k` of that string and keeps the pool sound |
| StringPoolLApi.ConcatenateSound | cppexamples/StringPoolL.cpp:327-359 | `Concatenate(i, s)` checks `i` first (through `Len`), leaves the pool unchanged for an empty `s`, refuses a too-long result, and otherwise makes the handle read the old string followed by `s` |
| StringPoolLApi.ClearSound | cppexamples/StringPoolL.cpp:244-249 | the corrected `Clear` keeps the strong invariant, and every handle then reads the empty string |
| StringPoolLApi.AssignSound | cppexamples/StringPoolL.cpp:145-147 | `strings[index] = strings[source]` checks both handles; otherwise `index` reads `source`'s string |
| StringPoolLApi.SetToSubstringSound | cppexamples/StringPoolL.cpp:593-604 | `SetToSubstring(s, start, len)` fails when `start + len` exceeds `strlen(s)`, then for a negative handle, then for `len > 65535`; otherwise the handle reads those `len` characters and the others are unchanged |
| StringPoolLFindings.TailGrowMisplaces | cppexamples/StringPoolL.cpp:512-522 | as written, growing the record at `Top` past the buffer's end writes the new string into the record of the last handle compacted; handle `i` keeps its old string |
| StringPoolLFindings.TailGrowExample | cppexamples/StringPoolL.cpp:512-522 | a concrete reachable pool ("A" at `Top` in handle 0, "B" in handle 1) in which the as-written store of 4096 characters goes to handle 1; the corrected store gives handle 0 the new string |
| StringPoolLFindings.ReachTwoStrings | cppexamples/StringPoolL.cpp:253-288 | that pool is what `Set(1, "B")` and then `Set(0, "A")` produce from a new pool |
| StringPoolLFindings.ConcatenateWraps | cppexamples/StringPoolL.cpp:336-353 | as written, a combined length over 65535 is stored modulo 65536, so the handle reads a truncated string |
| StringPoolLFindings.ConcatenateWrapsToEmpty | cppexamples/StringPoolL.cpp:336-353 | appending one character to a 65535-character string leaves the handle reading "" |
| StringPoolLFindings.ClearThenSetOverwrites | cppexamples/StringPoolL.cpp:244-249 | as written, after `Clear` the next `Set` overwrites the shared empty record at offset 0, so every handle below `Num` reads the new string |
| StringPoolLFindings.ClearThenSet | cppexamples/StringPoolL.cpp:244-249 | with the corrected `Clear`, the next `Set(j, s)` makes `j` read `s` and every other handle read "" |
| StringPoolLFindings.SetNWraps | cppexamples/StringPoolL.cpp:292-318 | as written, the explicit-length `Set` keeps the pool valid but reads back a string over 65535 characters cut to `len mod 65536` |
| StringPoolLExample.ExampleHello | cppexamples/StringPoolL.cpp:634 | `strings[4] = "Hello "` gives `Num == 5` and handle 4 reads "Hello " |
| StringPoolLExample.ExampleDolly | cppexamples/StringPoolL.cpp:638 | `strings[4] += "Dolly"` gives "Hello Dolly" |
| StringPoolLExample.ExampleCopy | cppexamples/StringPoolL.cpp:645 | `strings[5] = strings[4]` copies "Hello Dolly" |
| StringPoolLExample.ExampleSearch | cppexamples/StringPoolL.cpp:648-650 | the search for "Doll" returns 6 |
| StringPoolLExample.ExampleMolly | cppexamples/StringPoolL.cpp:654-655 | `strings[5][6] = 'M'` gives "Hello Molly" in handle 5 and leaves handle 4 "Hello Dolly" |
| StringPoolLExample.ExampleGoodbye | cppexamples/StringPoolL.cpp:671-678 | storing "Goodbye" at index `GetNum()` adds exactly one handle, which reads "Goodbye"; the others are unchanged |
| StringPoolLExample.ExampleSubstring | cppexamples/StringPoolL.cpp:681-682 | `strings[7].SetToSubstring(strings[4], 6, 5)` gives "Dolly" (handle 4 was never changed to "Molly") |
| StringPoolLClass.StringPool.constructor | cppexamples/StringPoolL.cpp:226-229 | the object starts in the empty, sound state |
| StringPoolLClass.StringPool.ReserveNum | cppexamples/StringPoolL.cpp:420-447 | the in-place table growth leaves the state `StringPoolLOps.ReserveNum` computes |
| StringPoolLClass.StringPool.ReserveBuf | cppexamples/StringPoolL.cpp:363-416 | the copy loop over the records leaves the compacted state `StringPoolLOps.ReserveBuf` computes, in a fresh buffer; the result is valid with no garbage, and sound when every record was terminated |
| StringPoolLClass.CompactInto | cppexamples/StringPoolL.cpp:383-400 | the loop `for (i = 0; i < Num; i++)` copies the records exactly as the step function `CompactUpTo` does |
| StringPoolLClass.StringPool.Allocate | cppexamples/StringPoolL.cpp:505-544 | it leaves the state and the record position that the corrected `Allocate` computes |
| StringPoolLClass.StringPool.Set | cppexamples/StringPoolL.cpp:253-288 | the result and the new state are those of `StringPoolLOps.Set`, and the object stays sound; it fails only for a negative handle or a string over 65535 characters, and then leaves the old state, or the old state after `Enter` for the too-long string |
| StringPoolLClass.StringPool.SetN | cppexamples/StringPoolL.cpp:292-323 | as above, for the explicit-length `Set` as corrected |
| StringPoolLClass.StringPool.Concatenate | cppexamples/StringPoolL.cpp:327-359 | gives `StringPoolLOps.Concatenate` of the old state and stays sound; a failure leaves the old state |
| StringPoolLClass.StringPool.Clear | cppexamples/StringPoolL.cpp:244-249 | the `memset` of `Offsets` and the reset of the counters give the corrected `StringPoolLOps.Clear` of the old state, which stays sound |
| StringPoolLClass.StringPool.Len | cppexamples/StringPoolL.cpp:451-459 | returns `StringPoolLOps.Len` of the current state |
| StringPoolLClass.StringPool.Get | cppexamples/StringPoolL.cpp:463-471 | returns `StringPoolLOps.Get` of the current state |
| StringPoolLClass.StringPool.CharAt | cppexamples/StringPoolL.cpp:608-614 | returns `StringPoolLOps.CharAt` of the current state |
| StringPoolLClass.StringPool.SetCharAt | cppexamples/StringPoolL.cpp:608-614 | the write through the returned reference gives `StringPoolLOps.SetCharAt` |
| StringPoolLClass.StringPool.SearchForSubstring | cppexamples/StringPoolL.cpp:580-589 | returns `StringPoolLOps.SearchForSubstring` of the current state |
| StringPoolLClass.StringPool.Assign | cppexamples/StringPoolL.cpp:145-147 | gives `StringPoolLOps.Assign` of the old state; a failure leaves the old state |
| StringPoolLClass.StringPool.SetToSubstring | cppexamples/StringPoolL.cpp:593-604 | gives `StringPoolLOps.SetToSubstring` of the old state; a failure leaves the old state, or the old state after `Enter` once the range is accepted |
| StringPoolWRecords.ScanStops | cppexamples/StringPoolW.cpp:96 | the `wcslen` scan stops at the first zero, and every character before it is non-zero |
| StringPoolWRecords.DecodeEncode | cppexamples/StringPoolW.cpp:230-232 | a string written with its terminating zero reads back as its C string |
| StringPoolWRecords.EmptySound | cppexamples/StringPoolW.cpp:181-184 | the constructed state satisfies the pool invariant |
| StringPoolWProofs.EnterValid | cppexamples/StringPoolW.cpp:210-217 | entering a handle keeps the invariant |
| StringPoolWProofs.EraseValid | cppexamples/StringPoolW.cpp:221-226 | assigning the empty string keeps the invariant and counts the old record as garbage |
| StringPoolWProofs.TailInPlaceValid | cppexamples/StringPoolW.cpp:437-447 | growing the record at `Top` in place keeps the invariant |
| StringPoolWProofs.ReuseValid | cppexamples/StringPoolW.cpp:449-455 | reusing a long-enough old record keeps the invariant and counts the tail as garbage |
| StringPoolWProofs.AppendValid | cppexamples/StringPoolW.cpp:457-468 | appending a record keeps the invariant |
| StringPoolWProofs.StoreValid | cppexamples/StringPoolW.cpp:430-469 | the corrected `Allocate` plus write replaces handle `i`'s string and keeps the others |
| StringPoolWProofs.StoreSound | cppexamples/StringPoolW.cpp:430-469 | the corrected `Allocate` plus write keeps the strong invariant |
| StringPoolWProofs.TailInPlaceExact | cppexamples/StringPoolW.cpp:437-447 | for a string without an embedded zero, the in-place write at `Top` keeps an exact `DataSize - GarbageSize` exact |
| StringPoolWProofs.AppendKeepExact | cppexamples/StringPoolW.cpp:457-468 | when the new string fits behind `DataSize`, the old string counted as garbage and the appended one keep the accounting exact |
| StringPoolWProofs.AppendGrowExcess | cppexamples/StringPoolW.cpp:457-468 | when the append grows the buffer, `GarbageSize` ends at 0 and `DataSize` exceeds the empty string plus the live strings by the copied old string of handle `i`; the accounting is exact only when there was none |
| StringPoolWCompaction.ResizeBufValid | cppexamples/StringPoolW.cpp:305-357 | the compacting reallocation keeps the invariant and provides the requested room |
| StringPoolWCompaction.ResizeBufContent | cppexamples/StringPoolW.cpp:305-357 | after compaction every handle reads the same string |
| StringPoolWCompaction.ResizeBufSound | cppexamples/StringPoolW.cpp:305-357 | compaction keeps the strong invariant |
| StringPoolWOps.ResizeNum | cppexamples/StringPoolW.cpp:361-388 | the table grows to at least the requested size and twice the old size plus 1024; old entries are kept and new ones are 0 |
| StringPoolWOps.Enter | cppexamples/StringPoolW.cpp:210-217 | `Num` becomes `max(Num, i+1)` and the table covers `i` |
| StringPoolWApi.SetSound | cppexamples/StringPoolW.cpp:208-237 | `Set(i, s)` fails for a negative `i`; otherwise handle `i` reads the C string of `s` and the others are unchanged |
| StringPoolWApi.SetNSound | cppexamples/StringPoolW.cpp:241-270 | `Set(i, s, len)` fails for a negative `i`; otherwise handle `i` reads the given characters up to the first zero among them, and the others are unchanged |
| StringPoolWApi.SetNValid | cppexamples/StringPoolW.cpp:241-270 | from any valid state, the explicit-length `Set` keeps the invariant |
| StringPoolWApi.LenReads | cppexamples/StringPoolW.cpp:96 | `Len()` fails for a bad handle and before any buffer exists; otherwise it is the length of the handle's string |
| StringPoolWApi.GetReads | cppexamples/StringPoolW.cpp:392-400 | `Get(i)` fails for a bad handle; otherwise it points at the handle's characters, followed by a zero |
| StringPoolWApi.SearchFinds | cppexamples/StringPoolW.cpp:501-510 | `SearchForSubstring(s)` is -1 exactly when the string does not occur; otherwise it is the first position |
| StringPoolWApi.CharAtReads | cppexamples/StringPoolW.cpp:529-535 | reading a character fails outside `[0, Len)`; otherwise it yields that character |
| StringPoolWApi.SetCharAtWrites | cppexamples/StringPoolW.cpp:529-535 | writing a non-zero character changes just that character; writing a zero cuts the string there; the pool stays sound |
| StringPoolWApi.ConcatenateSound | cppexamples/StringPoolW.cpp:274-301 | for an empty `s` the pool is unchanged, before `i` is checked; otherwise `i` is checked, and the handle then reads the old string followed by `s` |
| StringPoolWApi.ClearSound | cppexamples/StringPoolW.cpp:199-204 | the corrected `Clear` keeps the strong invariant, and every handle reads "" |
| StringPoolWApi.AssignSound | cppexamples/StringPoolW.cpp:107 | `strings[index] = strings[source]` gives `index` the string of `source` |
| StringPoolWApi.SetToSubstringSound | cppexamples/StringPoolW.cpp:514-525 | fails for a negative `start` or `len` and when `start + len > wcslen(s)`; otherwise the handle reads the slice |
| StringPoolWFindings.TailGrowMisplaces | cppexamples/StringPoolW.cpp:437-447 | as written, growing the record at `Top` past the buffer's end writes into the last compacted handle's record |
| StringPoolWFindings.TailGrowExample | cppexamples/StringPoolW.cpp:437-447 | a reachable two-string pool in which the as-written store goes to the wrong handle and the corrected one does not |
| StringPoolWFindings.ClearThenSetOverwrites | cppexamples/StringPoolW.cpp:199-204 | as written, after `Clear` the next `Set` overwrites the shared empty record, so every handle below `Num` reads the new string |
| StringPoolWFindings.ClearThenSet | cppexamples/StringPoolW.cpp:199-204 | with the corrected `Clear`, only the handle set reads the new string |
| StringPoolWExample.ExampleDolly | cppexamples/StringPoolW.cpp:555-559 | `L"Hello "` followed by `+= L"Dolly"` reads "Hello Dolly" |
| StringPoolWExample.ExampleSearch | cppexamples/StringPoolW.cpp:569 | the search for "Doll" returns 6 |
| StringPoolWExample.ExampleMolly | cppexamples/StringPoolW.cpp:575 | the character write gives "Hello Molly" in handle 5 only |
| StringPoolWExample.ExampleSubstring | cppexamples/StringPoolW.cpp:602-603 | the substring of handle 4 is "Dolly" |
| StringPoolWClass.StrLen | cppexamples/StringPoolW.cpp:96 | the `wcslen` loop returns the scan length of the record |
| StringPoolWClass.StringPool.ResizeBuf | cppexamples/StringPoolW.cpp:305-357 | the copy loop leaves the compacted state `StringPoolWOps.ResizeBuf` computes; the result is sound with no garbage |
| StringPoolWClass.StringPool.Set | cppexamples/StringPoolW.cpp:208-237 | gives `StringPoolWOps.Set` of the old state and stays sound; a failure leaves the old state |
| StringPoolWClass.StringPool.Concatenate | cppexamples/StringPoolW.cpp:274-301 | gives `StringPoolWOps.Concatenate` of the old state and stays sound; a failure leaves the old state |
| StringPoolWClass.StringPool.Clear | cppexamples/StringPoolW.cpp:199-204 | gives `StringPoolWOps.Clear` of the old state |
| StringPoolWClass.StringPool.ResizeNum | cppexamples/StringPoolW.cpp:361-388 | the in-place table growth leaves the state `StringPoolWOps.ResizeNum` computes, keeping the buffer |
| StringPoolWClass.StringPool.Allocate | cppexamples/StringPoolW.cpp:429-469 | it leaves the state and the string position that the corrected `Allocate` computes, keeping `Offsets` in place |
| StringPoolWClass.StringPool.SetN | cppexamples/StringPoolW.cpp:241-270 | gives `StringPoolWOps.SetN` of the old state and stays sound; a failure leaves the old state |
| StringPoolWClass.StringPool.Assign | cppexamples/StringPoolW.cpp:107 | gives `StringPoolWOps.Assign` of the old state and stays sound; a failure leaves the old state |
| StringPoolWClass.StringPool.SetToSubstring | cppexamples/StringPoolW.cpp:514-525 | gives `StringPoolWOps.SetToSubstring` of the old state and stays sound; a failure leaves the old state |
| StringPoolWClass.StringPool.Len | cppexamples/StringPoolW.cpp:96 | returns `StringPoolWOps.Len` of the current state |
| StringPoolWClass.StringPool.Get | cppexamples/StringPoolW.cpp:392-400 | returns `StringPoolWOps.Get` of the current state |
| StringPoolWClass.StringPool.CharAt | cppexamples/StringPoolW.cpp:529-535 | returns `StringPoolWOps.CharAt` of the current state |
| StringPoolWClass.StringPool.SetCharAt | cppexamples/StringPoolW.cpp:529-535 | the write through the returned reference gives `StringPoolWOps.SetCharAt`; a failure leaves the old state, and the pool stays sound |
| StringPoolWClass.StringPool.SearchForSubstring | cppexamples/StringPoolW.cpp:501-510 | returns `StringPoolWOps.SearchForSubstring` of the current state |
| MixedPools.ReserveSize | cppexamples/MixedPool.cpp:132-163 | a negative size is an error; 0 frees everything; a size beyond the buffer gives a buffer of `(size + 15) & -16` bytes and a smaller one keeps it; the data and the entry count are kept |
| MixedPools.SetDataSize | cppexamples/MixedPool.cpp:165-186 | a negative size is an error; shrinking keeps the prefix; growing appends zeros, and a buffer too small becomes `(size + AllocateSpace + 15) & -16` bytes; the entry count is kept |
| MixedPools.Push | cppexamples/MixedPool.cpp:189-245 | returns the old `DataSize`; the data becomes the old data plus the object (zeros when `obj` is null); `NumEntries` grows only for a non-zero size; a full buffer grows to `(2*NewOffset + AllocateSpace + 15) & -16` bytes |
| MixedPools.PushString | cppexamples/MixedPool.cpp:93-94 | pushes the string's characters and its zero |
| MixedPools.AlignUpMeans | cppexamples/MixedPool.cpp:251 | `(DataSize + a - 1) / a * a` is the least multiple of `a` that is at least `DataSize` |
| MixedPools.Align | cppexamples/MixedPool.cpp:248-260 | `DataSize` moves to that multiple, zero-padded, and the entries are unchanged |
| MixedPools.Get | cppexamples/MixedPool.cpp:97-99 | the corrected `Get<TX>(Offset)` succeeds exactly when the whole object lies inside the data, and returns its bytes |
| MixedPools.SetAt | cppexamples/MixedPool.cpp:97-99 | an assignment through `Get` succeeds exactly when the object lies inside the data, and writes just those bytes |
| MixedPools.PushThenGet | cppexamples/MixedPool.cpp:189-245 | reading at the offset `Push` returned gives back the object pushed |
| MixedPools.PushKeeps | cppexamples/MixedPool.cpp:189-245 | a push leaves every earlier object readable as before |
| MixedPools.SetThenGet | cppexamples/MixedPool.cpp:97-99 | reading after writing through `Get` gives back the bytes written |
| MixedPools.SetDataSizeIsPushZeros | cppexamples/MixedPool.cpp:165-186 | growing `DataSize` by `k` gives the same data as pushing `k` null bytes, one entry fewer |
| MixedPools.TruncateErases | cppexamples/MixedPool.cpp:180-183 | shrinking `DataSize` and growing it back reads zeros where data was |
| MixedPools.GetAsWrittenOverruns | cppexamples/MixedPool.cpp:97-99 | as written, `Get` checks `Offset >= DataSize` only: with 16 data bytes, an 8-byte read at offset 12, or a read at offset -1, is let through and reads outside the buffer (the model's `Overrun` outcome), where the corrected check refuses it |
| MixedPoolExample.Example | cppexamples/MixedPool.cpp:296-326 | the example's offsets are 0, 4 and 12; every value reads back as stored; three entries were pushed |
| MixedPoolClass.MixedPool.ReserveSize | cppexamples/MixedPool.cpp:132-163 | the in-place reallocation gives `MixedPools.ReserveSize` of the old state |
| MixedPoolClass.MixedPool.SetDataSize | cppexamples/MixedPool.cpp:165-186 | gives `MixedPools.SetDataSize` of the old state |
| MixedPoolClass.MixedPool.Push | cppexamples/MixedPool.cpp:189-245 | gives `MixedPools.Push` of the old state, copying the object into the new buffer before the old one is let go |
| MixedPoolClass.MixedPool.PushString | cppexamples/MixedPool.cpp:93-94 | gives the state and offset of `MixedPools.PushString` of the old state |
| MixedPoolClass.MixedPool.PushOwn | cppexamples/MixedPool.cpp:217-227 | pushing bytes of the pool's own data copies what they held before the reallocation |
| MixedPoolClass.MixedPool.Align | cppexamples/MixedPool.cpp:248-260 | gives `MixedPools.Align` of the old state |
| MixedPoolClass.MixedPool.Get | cppexamples/MixedPool.cpp:97-99 | returns `MixedPools.Get` of the current state |
| MixedPoolClass.MixedPool.SetAt | cppexamples/MixedPool.cpp:97-99 | the write through the returned reference gives `MixedPools.SetAt`; a failure leaves the old state |
| MixedPoolClass.MixedPool.GetBufferSize | cppexamples/MixedPool.cpp:88 | the buffer size is a multiple of 16 and at least `DataSize` |
| DynamicArrays.ReAllocate | cppexamples/DynamicArray.cpp:137-155 | the new buffer has `num` slots, starts with the old buffer, and holds the same elements |
| DynamicArrays.Reserve | cppexamples/DynamicArray.cpp:109-134 | a negative size is an error; 0 frees the buffer; a larger size reallocates; the elements are kept |
| DynamicArrays.SetNum | cppexamples/DynamicArray.cpp:159-181 | a negative count is an error; otherwise the elements are the old ones cut to `num`, or extended with zeros |
| DynamicArrays.GrownSize | cppexamples/DynamicArray.cpp:191 | the size `Push` grows to (`MaxNum*2 + (1024 + sizeof-1)/sizeof`) is larger than `MaxNum` |
| DynamicArrays.Push | cppexamples/DynamicArray.cpp:185-201 | returns the old count; the elements become the old ones followed by the object |
| DynamicArrays.Pop | cppexamples/DynamicArray.cpp:205-217 | fails on an empty array; otherwise returns the last element and removes it |
| DynamicArrays.PopPush | cppexamples/DynamicArray.cpp:185-217 | `Pop` after `Push(x)` returns `x` and restores the elements |
| DynamicArrays.At | cppexamples/DynamicArray.cpp:221-228 | `list[i]` succeeds exactly for `0 <= i < NumEntries` and yields element `i` |
| DynamicArrays.SetAt | cppexamples/DynamicArray.cpp:221-228 | an assignment to `list[i]` succeeds exactly in range and changes element `i` only |
| DynamicArrayClass.DynamicArray.Push | cppexamples/DynamicArray.cpp:185-201 | the in-place push gives `DynamicArrays.Push` of the old state |
| DynamicArrayClass.DynamicArray.PushOwn | cppexamples/DynamicArray.cpp:185-201 | `list.Push(list[j])` appends the value element `j` had before the reallocation |
| DynamicArrayClass.DynamicArray.Pop | cppexamples/DynamicArray.cpp:205-217 | gives `DynamicArrays.Pop` of the old state |
| DynamicArrayClass.DynamicArray.ReAllocate | cppexamples/DynamicArray.cpp:137-155 | the fresh buffer gives `DynamicArrays.ReAllocate` of the old state, and the old buffer is handed back for `OldBuffer` |
| DynamicArrayClass.DynamicArray.Reserve | cppexamples/DynamicArray.cpp:109-134 | gives `DynamicArrays.Reserve` of the old state; a failure leaves the old state |
| DynamicArrayClass.DynamicArray.SetNum | cppexamples/DynamicArray.cpp:159-181 | gives `DynamicArrays.SetNum` of the old state; a failure leaves the old state |
| DynamicArrayClass.DynamicArray.At | cppexamples/DynamicArray.cpp:221-228 | returns `DynamicArrays.At` of the current state |
| DynamicArrayClass.DynamicArray.SetAt | cppexamples/DynamicArray.cpp:221-228 | the write through the returned reference gives `DynamicArrays.SetAt`; a failure leaves the old state |
| DynamicArrayClass.ArrayExample | cppexamples/DynamicArray.cpp:272-283 | `SetNum(10)`, then `list[0] = 10` and `list[5] = 20`, shows 10 0 0 0 0 20 0 0 0 0 |
| DynamicArrayClass.StackExample | cppexamples/DynamicArray.cpp:295-313 | pushing 51, 52 and 53 and popping until empty gives 53, 52, 51 |
| AlignedArrays.Reserve | cppexamples/AlignedArray.cpp:128-177 | a negative size is an error; 0 frees the storage; a larger size reallocates and keeps the elements |
| AlignedArrays.SetNum | cppexamples/AlignedArray.cpp:181-203 | a negative count is an error; otherwise the elements are cut or zero-extended to `num` |
| AlignedArrays.At | cppexamples/AlignedArray.cpp:80-84 | `list[i]` succeeds exactly for `0 <= i < NumEntries` |
| AlignedArrays.VectCheckMeans | cppexamples/AlignedArray.cpp:87-94 | the corrected vector check admits exactly the indices of whole vectors inside the array |
| AlignedArrays.VectCheckPow2 | cppexamples/AlignedArray.cpp:90-91 | for 1, 2, 4, 8 or 16 elements per vector, the check as written agrees with the corrected one |
| AlignedArrays.VectCheckNotPow2 | cppexamples/AlignedArray.cpp:90 | with 3 elements per vector on 12 elements, the check as written refuses index 3 (a whole vector) and admits index 4 (not a vector boundary); the corrected check does the opposite |
| AlignedArrays.VectAt | cppexamples/AlignedArray.cpp:87-94 | `Vect<VEC>(i)` yields elements `i .. i+epv` exactly when the check passes |
| AlignedArrays.VectRoundTrip | cppexamples/AlignedArray.cpp:87-94 | reading a vector after writing it gives back what was written |
| AlignedArrays.AlignedStartFits | cppexamples/AlignedArray.cpp:163-167 | `(bufferU + 15) & -16` is a multiple of 16 inside the `num*sizeof + 15` bytes allocated |
| AlignedArrayClass.AlignedArray.SetNum | cppexamples/AlignedArray.cpp:181-203 | gives `AlignedArrays.SetNum` of the old state |
| AlignedArrayClass.AlignedArray.SetVect | cppexamples/AlignedArray.cpp:87-94 | a vector write gives `AlignedArrays.SetVectAt` of the old state |
| AlignedArrayClass.AlignedArray.Reserve | cppexamples/AlignedArray.cpp:128-177 | gives `AlignedArrays.Reserve` of the old state; a failure leaves the old state |
| AlignedArrayClass.AlignedArray.At | cppexamples/AlignedArray.cpp:80-84 | returns `AlignedArrays.At` of the current state |
| AlignedArrayClass.AlignedArray.SetAt | cppexamples/AlignedArray.cpp:80-84 | the write through the returned reference gives `AlignedArrays.SetAt`; a failure leaves the old state |
| AlignedArrayClass.AlignedArray.Vect | cppexamples/AlignedArray.cpp:87-94 | returns `AlignedArrays.VectAt` of the current state |
| SortedLists.LowerBound | cppexamples/SortedList.cpp:78-93 | the first position whose key is not below `k`: all keys before it are smaller |
| SortedLists.LowerBoundSplits | cppexamples/SortedList.cpp:78-93 | in a sorted list, every key from that position on is at least `k` |
| SortedLists.InsertSorted | cppexamples/SortedList.cpp:97-111 | inserting at the lower bound keeps the list sorted |
| SortedLists.InsertMultiset | cppexamples/SortedList.cpp:104-109 | inserting adds exactly that object |
| SortedLists.Put | cppexamples/SortedList.cpp:97-111 | `Put` fails, changing nothing, exactly when the list is full |
| SortedLists.PutSorted | cppexamples/SortedList.cpp:97-111 | a successful `Put` keeps the list sorted and adds exactly `x` |
| SortedLists.PutUniqueMeans | cppexamples/SortedList.cpp:116-133 | `PutUnique` leaves the list unchanged exactly when an object with an equal key is present; afterwards one is present, and a list without duplicate keys stays without them |
| SortedLists.RemoveSorted | cppexamples/SortedList.cpp:136-143 | removing index `i` keeps the list sorted and removes exactly that object |
| SortedLists.Remove | cppexamples/SortedList.cpp:136-143 | an index at or past `num` changes nothing; otherwise the later objects move down one place |
| SortedLists.ExistsMeans | cppexamples/SortedList.cpp:147-156 | `Exists` finds an object exactly when one with an equal key is present, and reports the first such index |
| SortedLists.PutThenExists | cppexamples/SortedList.cpp:97-156 | after a successful `Put(x)`, `Exists(x)` finds it |
| SortedLists.At | cppexamples/SortedList.cpp:59-67 | `list[i]` succeeds exactly for `i < num` |
| SortedListClass.MoveUp | cppexamples/SortedList.cpp:104-106 | the `memmove` by one place up shifts `list[a..num)` to `list[a+1..num+1)` |
| SortedListClass.SortedList.Search | cppexamples/SortedList.cpp:78-93 | the bisection loop returns `LowerBound` of the contents |
| SortedListClass.SortedList.Put | cppexamples/SortedList.cpp:97-111 | gives `SortedLists.Put` of the old contents |
| SortedListClass.SortedList.PutUnique | cppexamples/SortedList.cpp:116-133 | gives `SortedLists.PutUnique` of the old contents |
| SortedListClass.SortedList.Remove | cppexamples/SortedList.cpp:136-143 | gives `SortedLists.Remove` of the old contents |
| SortedListClass.SortedList.Exists | cppexamples/SortedList.cpp:147-156 | returns what `SortedLists.Exists` returns |
| SortedListClass.SortedList.At | cppexamples/SortedList.cpp:59-67 | returns `SortedLists.At` of the current contents |
| SortedListExample.PutEachSorted | cppexamples/SortedList.cpp:199-203 | objects put one by one end up sorted, all of them |
| SortedListExample.Example | cppexamples/SortedList.cpp:192-223 | after the five `Put`s, `Exists` finds "Cecilia" at the record with address "Somewhere" |
| FiloLists.PopPushed | cppexamples/FILOlist.cpp:43-60 | `Get` after `Put(x)` returns `x` and restores the stack |
| FiloLists.FILOlist.Put | cppexamples/FILOlist.cpp:43-50 | fails exactly when full; otherwise the contents gain `x` on top |
| FiloLists.FILOlist.Get | cppexamples/FILOlist.cpp:51-60 | an empty stack gives `None` and no change; otherwise the top object is returned and removed |
| FiloLists.PutAllGetAll | cppexamples/FILOlist.cpp:71-82 | putting objects and getting until empty gives them in reverse order |
| FiloLists.FiloExample | cppexamples/FILOlist.cpp:71-82 | the example prints 30, 20, 10 |
| FifoLists.SlotIsMod | cppexamples/FIFOlist.cpp:48-50 | the pointer that wraps at the end of the buffer is `(tail + k) mod MAXSIZE` |
| FifoLists.FIFOlist.Put | cppexamples/FIFOlist.cpp:43-53 | fails exactly when full; otherwise the contents gain `x` at the back |
| FifoLists.FIFOlist.Get | cppexamples/FIFOlist.cpp:54-66 | an empty queue gives `None` and no change; otherwise the front object is returned and removed |
| FifoLists.PutAllGetAll | cppexamples/FIFOlist.cpp:77-88 | putting objects and getting until empty gives them in the same order |
| FifoLists.FifoExample | cppexamples/FIFOlist.cpp:77-88 | the example prints 10, 20, 30 |
| SafeArrays.Read | cppexamples/SafeArray.cpp:44-52 | `a[i]` succeeds exactly for `i < N` and yields element `i`; otherwise it is the error the null reference provokes |
| SafeArrays.ReadAfterUpdate | cppexamples/SafeArray.cpp:44-52 | reading after writing `a[i]` gives the value written |
| SafeArrays.UpdateFrame | cppexamples/SafeArray.cpp:44-52 | writing `a[i]` leaves every other element unchanged |
| SafeArrays.SafeArray.constructor | cppexamples/SafeArray.cpp:36-38 | every element is zero |
| SafeArrays.SafeArray.SetAt | cppexamples/SafeArray.cpp:44-52 | an assignment through `a[i]` gives `SafeArrays.Update` of the old elements |
| SafeArrays.SafeArray.At | cppexamples/SafeArray.cpp:44-52 | returns `SafeArrays.Read` of the current elements |
| SafeArrays.SafeArrayExample | cppexamples/SafeArray.cpp:60-71 | the example shows ten zeros |
| MersenneTwister.RegeneratedRecurrence | testp/TestScripts/shufflelist.cpp:154-172 | the three regeneration loops compute the linear recurrence `x[k+N] = x[k+M] ^ twist(x[k], x[k+1])` |
| MersenneTwister.RecurrenceDetermines | testp/TestScripts/shufflelist.cpp:154-172 | no other vector satisfies the recurrence: the regeneration is its unique solution |
| MersenneTwister.Init0 | testp/TestScripts/shufflelist.cpp:133-140 | `mt[0]` is the seed as `unsigned int` and each later word is `1812433253 * (w ^ (w >> 30)) + k` of the one before, modulo 2^32; `mti` is `MERS_N` |
| MersenneTwister.BRandom | testp/TestScripts/shufflelist.cpp:150-182 | without regeneration `mti` advances by one; with it, the new vector satisfies the recurrence and `mti` is 1; the result is the tempered word delivered |
| MersenneTwister.DrawsInVector | testp/TestScripts/shufflelist.cpp:173-181 | draws within the current vector deliver the words from `mti` on, tempered, in order |
| MersenneTwister.RandomInitState | testp/TestScripts/shufflelist.cpp:142-148 | `RandomInit(seed)` leaves the regenerated seed vector with `mti == 37` |
| MersenneTwister.IRandom | testp/TestScripts/shufflelist.cpp:190-200 | `min` for `max == min`, `0x80000000` for `max < min`, and otherwise a value in `[min, max]` |
| MersenneTwister.IRandomCovers | testp/TestScripts/shufflelist.cpp:190-200 | every value of a non-empty interval is the result of some draw |
| MersenneClass.Regenerate | testp/TestScripts/shufflelist.cpp:154-172 | the in-place loops over `mt` leave exactly the regenerated vector |
| MersenneClass.CRandomMersenne.Init0 | testp/TestScripts/shufflelist.cpp:133-140 | the seeding loop leaves `MersenneTwister.Init0(seed)` |
| MersenneClass.CRandomMersenne.RandomInit | testp/TestScripts/shufflelist.cpp:142-148 | leaves `MersenneTwister.RandomInit(seed)` |
| MersenneClass.CRandomMersenne.BRandom | testp/TestScripts/shufflelist.cpp:150-182 | returns the word and leaves the state that `MersenneTwister.BRandom` computes |
| MersenneClass.CRandomMersenne.constructor | testp/TestScripts/shufflelist.cpp:23-24 | a new generator is in the state `RandomInit(seed)` |
| ShuffleLists.Range | testp/TestScripts/shufflelist.cpp:216 | the list `min, min+1, ..., min+n-1` (empty for `n <= 0`) |
| ShuffleLists.SwapMultiset | testp/TestScripts/shufflelist.cpp:222 | a swap permutes the list |
| ShuffleLists.ShuffledPermutes | testp/TestScripts/shufflelist.cpp:206-224 | whatever the random choices, the shuffled list holds each number of `min .. min+n-1` exactly once |
| ShuffleLists.SwapsPermutes | testp/TestScripts/shufflelist.cpp:218-223 | the swap loop from position `i` permutes the tail and keeps the prefix |
| ShuffleLists.ShuffleReachesAll | testp/TestScripts/shufflelist.cpp:218-223 | every arrangement of `min .. min+n-1` is the result of some sequence of choices |
| ShuffleLists.PermutationDistinct | testp/TestScripts/shufflelist.cpp:115-124 | a list holding `0 .. n-1` once each has distinct entries inside `[0, n)` |
| ShuffleLists.ChainIsOneCycle | testp/TestScripts/shufflelist.cpp:115-124 | following the links from any node returns to it after exactly `listlen` steps, visiting every node once: the chain is one cycle |
| ShuffleListMethods.Shuffle | testp/TestScripts/shufflelist.cpp:206-224 | the fill loop and the swap loop leave `list[0..n)` equal to `Shuffled(min, n, draws)`, and the rest of the array unchanged |
| ShuffleListMethods.Chain | testp/TestScripts/shufflelist.cpp:115-124 | each node's link names the node of the next list entry, and the last entry's link names the first |
| ShuffleListMethods.ShuffleChain | testp/TestScripts/shufflelist.cpp:101-126 | the list is `0 .. listlen-1` for seed 0 and shuffled otherwise; it is a permutation, with every node linked to its successor |

## Left out

- I/O: `Printf`, `Write`, `printf`, `fprintf` and `Error`'s message are left out. `Error` is modelled as an `Err` result.
- Allocation failure (`Error(3)`, a null pointer from `new`) is not modelled, because Dafny's allocation does not fail.
- The destructors and `OldBuffer` are not modelled. With value semantics, a string copied from the pool itself is taken before the buffer is replaced, which is what `OldBuffer` exists to ensure.
- The string comparison operators (`==`, `<` and the others on `StringElement`) are not modelled.
- Pointer validity after reallocation is not modelled: handles and offsets replace pointers.
- Integer overflow of the `int` and `unsigned int` sizes and counters is not modelled, except for the 16-bit length word of `StringPoolL` and the 32-bit Mersenne Twister words.
- Overlapping copies are not modelled. Three uses of the element class make `memcpy` copy from
  the record it is writing, which is undefined behaviour in C:
  - `strings[i] = strings[i]` copies with destination equal to source
    (cppexamples/StringPoolL.cpp:145-147 and 316; cppexamples/StringPoolW.cpp:107 and 232).
  - `strings[i].SetToSubstring(strings[i], k, n)` copies from a source inside the destination
    (cppexamples/StringPoolL.cpp:602 and 316; cppexamples/StringPoolW.cpp:523 and 263).
  - `strings[i] += strings[i]`, when the record grows in place, copies `len1 + 1` bytes from
    the start of the string to its own end (cppexamples/StringPoolL.cpp:353-354;
    cppexamples/StringPoolW.cpp:295-296).
  The model takes the source characters as a value before the write, which is what a
  non-overlapping copy would give.
- An uninitialised `new` buffer is modelled as zeros.
- StringPoolLClass.StringPool.ReserveBuf: the `MemPadding` bytes that the source adds to each new buffer (cppexamples/StringPoolL.cpp:179, 373) are not modelled. They change only the size of the allocation, never `BufferSize` or the stored records.
- StringPoolLProofs.AppendGrowExcess: `Exact` (`DataSize - GarbageSize` equal to what the records need) is not promised after an append that grows the buffer. In that branch the source compacts while handle `i` still points at its abandoned record, so `ReserveBuf` copies the record as live and then sets `GarbageSize` to 0. The model keeps this behaviour, and the lemma states the excess: the old record's size. `GarbageSize` only sizes the next buffer (cppexamples/StringPoolL.cpp:369-371), so no string's contents depend on it. The same holds for `StringPoolWProofs.AppendGrowExcess` (cppexamples/StringPoolW.cpp:311-312).
- StringPoolWOps.SetN: strings are not capped, because `StringPoolW` declares no length limit. A wide character is a 32-bit unit; the width of `wchar_t` is otherwise not modelled.
- StringPoolLOps.Len: reading before any buffer exists is a null dereference in the source; the model reports `Err(NullBuffer)`.
- AlignedArrays.AlignedStartFits: addresses are naturals below `2^w`, so the pointer-to-integer conversion that the `union` performs is abstracted.
- AlignedArrays.State: the separate unaligned and aligned pointers are not modelled, only the aligned storage.
- The SSE intrinsics of the `AlignedArray` example (`_mm_add_ps`) are not modelled. The example's 4-float vectors are covered by `AlignedArrays.AlignedExample`.
- DynamicArrays.GrownSize: `MaxNum*2` can overflow `int` in the source; the model uses unbounded integers.
- SortedLists: `OBJTYPE`'s `operator <` is modelled as comparing an integer key. `SortedListExample.ByName` orders the example's names by their first letter, which orders those five names as `strcmp` does.
- MixedPools.Align: requires `a > 0`. `Align(0)` divides by zero in the source, and a negative `a` gives a negative multiple (cppexamples/MixedPool.cpp:251); the model does not reproduce either. The same holds for `MixedPoolClass.MixedPool.Align` and `MixedPools.AlignUp`.
- MixedPoolClass.MixedPool.Get: the typed reference `TX&` is modelled as `n` bytes; the reinterpretation of those bytes as a `TX` is not modelled.
- MersenneTwister.IRandom: the floating-point scaling `int((max - min + 1) * Random() + min)` is replaced by a draw parameter. The contract states only the range and the edge cases, not the distribution. The `max - min + 1` overflow is not modelled. `0x80000000` converted to `int` is modelled as its bit pattern, `-2^31`.
- CRandomMersenne::Random (the `double` in `[0, 1)`) is not modelled, because Dafny has no floating point.
- MersenneTwister.Temper: the inverse of the tempering is not proved. That the four steps are invertible is true, but the bit-vector proof is beyond the solver's resource limit here.
- ShuffleListMethods.ShuffleChain: the draws are a parameter and are not derived from the seeded generator. The link between `IRandom` and `BRandom` is the float scaling above.
- ShuffleListMethods.ShuffleChain: requires `listlen >= 1`. For `listlen == 0` the source reads `ShuffledList[listlen-1]`, outside the list (testp/TestScripts/shufflelist.cpp:115), and the model does not reproduce that read. `ShuffleListMethods.Chain` has the same precondition for the same line.
- ShuffleListMethods.Chain: `buffer_aligned + node * stride` is modelled as the node number, so the chain is a successor table `next[node]`. `AllocateBuffers`, the stride and the alignment to 64 are left out.
- testp files other than shufflelist.cpp (the drivers and memcpy tests) are not part of this model.
- FifoLists.FIFOlist.constructor: requires `MAXSIZE > 0`, since a zero-length member array is not valid C++.

## Findings

| source | as written | input that shows it | evidently intended | confidence | as-written member | corrected member |
|---|---|---|---|---|---|---|
| cppexamples/StringPoolL.cpp:512-522 | when the string at `Top` grows past the buffer's end, `ReserveBuf` compacts and moves `Top` to the last record copied; the new string is then written there | `Set(1, "B")`, `Set(0, "A")`, then a 4096-character string into handle 0: it lands in handle 1, and handle 0 still reads "A" | after a reallocation, place the string like any record that does not fit | not executed; high | StringPoolLFindings.TailGrowExample | StringPoolLProofs.StoreSound |
| cppexamples/StringPoolL.cpp:336-351 | only the appended length is checked against 65535; the combined length is stored modulo 65536 | a 65535-character string plus "x" reads back as "" | refuse a combined length over 65535 (`Error(5)`) | not executed; high | StringPoolLFindings.ConcatenateWrapsToEmpty | StringPoolLApi.ConcatenateSound |
| cppexamples/StringPoolL.cpp:244-249 | `Clear` sets `DataSize` to 0, so the next record is written over the shared empty record at offset 0 | `Clear()` then `Set(0, "x")`: every handle below `Num` reads "x" | restart just past the empty record | not executed; high | StringPoolLFindings.ClearThenSetOverwrites | StringPoolLFindings.ClearThenSet |
| cppexamples/StringPoolL.cpp:292-318 | the explicit-length `Set` never checks `len` against 65535 | a 65536-byte string reads back as "" | refuse it with `Error(5)`, as `Set(i, s)` does | not executed; medium | StringPoolLFindings.SetNWraps | StringPoolLApi.SetNSound |
| cppexamples/StringPoolW.cpp:437-447 | the same growth at `Top` after a `ResizeBuf` | two one-character strings, then 8192 characters into handle 0 | place it like a record that does not fit | not executed; high | StringPoolWFindings.TailGrowExample | StringPoolWProofs.StoreSound |
| cppexamples/StringPoolW.cpp:199-204 | `Clear` sets `DataSize` to 0 | `Clear()` then `Set(0, L"x")`: every handle reads "x" | restart just past the empty record | not executed; high | StringPoolWFindings.ClearThenSetOverwrites | StringPoolWFindings.ClearThenSet |
| cppexamples/AlignedArray.cpp:90 | the divisibility test `i & (ElementsPerVector-1)` is right only for powers of two | 3 elements per vector, `Vect(3)` on 12 elements gives `Error(2)` | `i % ElementsPerVector != 0` | not executed; low (vector sizes are normally powers of two) | AlignedArrays.VectCheckNotPow2 | AlignedArrays.VectCheckMeans |
| cppexamples/MixedPool.cpp:97-99 | `Get<TX>` checks `Offset >= DataSize` only | in a full pool of 16 bytes, `Get<double>(12)` reads 4 bytes past the buffer and `Get<char>(-1)` one byte before it | check `0 <= Offset` and `Offset + sizeof(TX) <= DataSize` | not executed; medium | MixedPools.GetAsWrittenOverruns | MixedPools.Get |

Some comments in the source disagree with its code:

- **StringPoolL.cpp:655 and 682.** The comments say "Hello Molly" and "Molly", but only handle 5 is changed. Handle 4 stays "Hello Dolly", so the substring is "Dolly" (`StringPoolLExample.ExampleSubstring`). StringPoolW.cpp:603 has the same comment.
- **FILOlist.cpp:6 and 79.** Line 6 calls the file a First-In-First-Out list. Line 79 says the example prints "10 20 30", but it prints 30 20 10 (`FiloLists.FiloExample`).
- **SafeArray.cpp:62.** The comment says 20 floats, but `N` is 10 (`SafeArrays.SafeArrayExample`).
- **MixedPool.cpp:105.** The comment states `BufferSize > DataSize`, but `Push` can fill the buffer exactly. The model proves `BufferSize >= DataSize` (`MixedPoolClass.MixedPool.GetBufferSize`).
