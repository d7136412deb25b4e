# A verified model of nanolibc

nanolibc is a small C and C++ standard library for EFI programs. This project models its densest parts in
Dafny 4.11 and proves what they promise, for all inputs and all runs. `dafny verify dfyconfig.toml` checks it.

| file | models |
|---|---|
| `words.dfy` | 64-bit words as integers, wrap-around, bitwise AND and XOR |
| `unordered_map.dfy` | the chained hash map of `cxx/include/unordered_map` |
| `vector.dfy` | growth, shifts and copies of `cxx/include/vector` |
| `functional.dfy` | the mixing hashes of `cxx/include/functional` |
| `strtox.dfy` | the strtol/strtoul template `c/strtox.c` |
| `ggl_pci.dfy` | `parse_pci_address` of `efi/ggl_pci.c` |
| `malloc.dfy` | the aligned allocator layer `c/malloc.c` |
| `c_string.dfy` | `strtok_r`, `strstr`, `memcpy` and `memmove` of `c/string.c` |
| `console.dfy` | `vfprintf`, `vsnprintf` (`c/stdio.c`) and the EFI console writer (`efi/start_main.c`) |
| `efi_time.dfy` | the calendar formula of `efi_gettime_wall` (`efi/start_main.c`) |
| `cxx_string.dfy` | the heap string of `cxx/include/string` |

## Main results

- **Hash map.** `Replay`: any run, of any length, of stores, reads, finds and erases from a fresh map, with any
  hash function, answers as a finite map does. Every method keeps `Valid`: the chains partition the entries,
  so every walk ends; the table is a power of two and at least twice the entry count. Ghost chains carry the
  proof: after a swap-erase the links follow no index order.
- **Number parser.** `Strtox` ends at the longest subject sequence of section 7.22.1.4 of ISO/IEC 9899:2011
  and returns its clamped or wrapped value, for every string, base and signedness. `NumberParsed` and
  `NoNumberParsed` spell this out for texts put together from white space, sign, prefix, digits and rest;
  canonical renderings of all in-range values read back.
- **Allocator.** `RunSafe`: over every run of malloc, free, realloc and payload writes, blocks stay aligned and
  apart, headers survive, the runtime gets back only blocks it has outstanding, and nothing leaks. Memory is
  bytes, and headers are the bytes that callers could overwrite. `RunKeepsBytes`: each payload holds what its
  owner last wrote, also after realloc has moved it.
- **Tokenizer.** `TokenizeAll` with `TokensAreMaximalRuns`: calling strtok_r until NULL yields exactly the maximal
  delimiter-free runs, in order, and changes only the bytes that end them; any number of further calls return
  NULL.
- **Vector.** `PushAll`: n pushes make fewer than 2n moves and end in the smallest power-of-two block.
- **Console.** `EveryLfFollowsCr` and `EachCharIsShown` fix the CR LF conversion; `Vfprintf` shows it whatever the
  block boundaries.
- **Hashing.** The word hash is a permutation; strings of equal length that differ in one position never collide.

## Where the code does less than its purpose

Each is kept as coded, with the exact condition under which it is right and an input on which it is not.

| code | right exactly when | condition | failing input |
|---|---|---|---|
| `strstr` does not back up after a partial match (`c/string.c:193-196`) | the needle never needs backing up, a property of the needle alone | `CStrings.StrstrExact` | `CStrings.AabMissed` |
| January is missed after the 8-bit month wraps (`efi/start_main.c:159`); the comment above it describes the right adjustment, and the code is followed | the month is not January | `EfiTime.GettimeWall` | `EfiTime.JanuaryIsWrong` |
| `insert` copies only the items before the hole when it grows (`cxx/include/vector:199`) | the items fit the capacity, or the new block happens to hold the items after the hole | `Vectors.InsertExact` | `Vectors.InsertIntoFull` |
| the PCI range masks are 32 bits wide (`efi/ggl_pci.c:111-114`) | the numbers in the text are below 2^32, or the masks reject them | `GglPci.AcceptedIffInRange` | `GglPci.WideDomainAccepted` |
| the size search of `_reserve` wraps (`cxx/include/vector:153-155`) | the items fit in 2^63 bytes | `Vectors.ReserveTerminates` | `Vectors.SearchNeverEnds` |
| the raw request of `malloc` wraps (`c/malloc.c:61`) | size + 31 is below 2^64 | `Malloc.RawSizeSuffices` | `Malloc.LargestRequestWraps` |
| a failing `realloc` frees the old block (`c/malloc.c:112-115`), which section 7.22.3.5 of ISO/IEC 9899:2011 forbids | the block is large enough, or the runtime has memory | `Malloc.FailedReallocFrees` | every growing call that the runtime refuses |
| console text stops at a NUL in each block (`efi/start_main.c:67`) | the text has no NUL | `Console.ShownExact` | `Console.NulStopsText` |
| `memcmp` compares signed chars (`c/string.c:37-41`) | the first two chars that differ have the same sign | `CxxString.OrderIsStandard` | `CxxString.HighByteComesFirst` |
| string self-assignment (`cxx/include/string:62-69`) | the strings are two, or empty | `CxxString.String.Assign` | every other string |

## Model

| member | source | states |
|---|---|---|
| `Words.MaskIsMod` | cxx/include/unordered_map:72 | `h & (n-1)` is `h mod n` when n is a power of two |
| `UnorderedMap.LinkAtHead` | cxx/include/unordered_map:112-118 | pushing a free entry at the head of its bucket's chain threads it and keeps all other chains |
| `UnorderedMap.UnlinkFromChain` | cxx/include/unordered_map:120-136 | redirecting the link to an entry takes exactly that entry off its chain |
| `UnorderedMap.WalksTerminate` | cxx/include/unordered_map:73-78 | following `next` from any bucket reaches SIZE_MAX after at most as many steps as there are entries |
| `UnorderedMap.ChainsPartition` | cxx/include/unordered_map:149-152 | each index is on exactly one chain, once, in the bucket of its masked hash |
| `UnorderedMap.SwapOutBindings` | cxx/include/unordered_map:61-67 | moving the last entry into the hole and dropping the last slot removes exactly the erased binding |
| `UnorderedMap.UnorderedMap.Find` | cxx/include/unordered_map:70-80 | returns the slot of the key with its current value, and `end()` exactly for unbound keys |
| `UnorderedMap.UnorderedMap.InsertIntoHashTable` | cxx/include/unordered_map:112-118 | the entry joins the live entries at the head of its chain; bindings are untouched |
| `UnorderedMap.UnorderedMap.RemoveFromHashTable` | cxx/include/unordered_map:120-136 | the entry, wherever it is in its chain, leaves the live entries; bindings are untouched |
| `UnorderedMap.UnorderedMap.ExpandHashTable` | cxx/include/unordered_map:138-146 | the table doubles, every chain is rebuilt, the map stays the same |
| `UnorderedMap.UnorderedMap.Index` | cxx/include/unordered_map:82-96 | an absent key gains T(), a bound one keeps its value, all others stay; the table doubles exactly when it would become more than half full |
| `UnorderedMap.UnorderedMap.Store` | cxx/include/unordered_map:82-96 | writing through the reference binds the key to the value and changes nothing else |
| `UnorderedMap.UnorderedMap.Erase` | cxx/include/unordered_map:52-68 | removes exactly the key's binding by moving the last entry into its slot; absent keys change nothing |
| `UnorderedMap.Replay` | tests/std_unordered_map_test.cc:91-116 | every run from a fresh map, however long, answers as the finite map does: find and `map[key]` by the bindings before them |
| `UnorderedMap.LastPutWins` | tests/std_unordered_map_test.cc:91-116 | over any run a key has the value last stored under it, whatever happens to other keys |
| `UnorderedMap.TouchBindsBlank` | cxx/include/unordered_map:82-96 | an absent key read through `map[key]` is bound to T() from then on |
| `UnorderedMap.ErasedStaysUnbound` | cxx/include/unordered_map:52-68 | an erased or never used key is unbound until it is used again |
| `Functional.MixIsPermutation` | cxx/include/functional:17-19 | multiply and shift-mix together permute the 64-bit words |
| `Functional.HashSizeIsPermutation` | cxx/include/functional:29-35 | no two words collide, and every word is a hash |
| `Functional.RoundIsPermutation` | cxx/include/functional:15-19 | a round permutes the states for a fixed char, and separates chars for a fixed state |
| `Functional.HashString` | cxx/include/functional:12-22 | 0xdeadbeef for the empty string; each further char is added to the hash of those before, times 413679843, then xored with its upper 48 bits |
| `Functional.HashSizeValue` | cxx/include/functional:29-35 | the word plus 0xdeadbeef, times 413679843, then xored with its upper 48 bits |
| `Functional.HashStringValue` | cxx/include/functional:13-19 | what one more char does to the hash of any string |
| `Functional.SuffixKeepsDifference` | cxx/include/functional:14-20 | a common text keeps equal states equal and different ones different |
| `Functional.OneDifferenceNeverCollides` | cxx/include/functional:14-20 | equal-length strings that differ in exactly one position have different hashes |
| `Vectors.ReserveTerminates` | cxx/include/vector:149-155 | the doubling search ends exactly when n items fit in 2^63 bytes |
| `Vectors.SearchNeverEnds` | cxx/include/vector:151-155 | 2^60 items of 16 bytes are never reached: the byte size wraps to 0 |
| `Vectors.InsertExact` | cxx/include/vector:193-208 | insert gives v[..i]+xs+v[i..] exactly when there is room or the new block already holds v[i..] |
| `Vectors.Vector.ChooseBytes` | cxx/include/vector:151-155 | the smallest power-of-two block with room for n items, 64 bytes or fewer than twice the bytes needed, without wrapping |
| `Vectors.Vector.Reserve` | cxx/include/vector:143-167 | nothing changes when there is room; otherwise the smallest block holds the first `copy_only` items, whatever `new` left after them, and the moves are counted |
| `Vectors.Vector.PushBack` | cxx/include/vector:234-248 | appends; moves all items exactly when full, into the smallest block for them, of at least twice the capacity |
| `Vectors.Vector.PopBack` | cxx/include/vector:250-259 | drops the last item, aborts exactly on an empty vector |
| `Vectors.Vector.Erase` | cxx/include/vector:261-273 | v[..i]+v[i+1..], aborts exactly when out of range |
| `Vectors.Vector.Resize` | cxx/include/vector:169-176 | truncates, or appends T() up to the size |
| `Vectors.Vector.ShiftUp` | cxx/include/vector:201-204 | the downward loop ends and moves the tail up by n |
| `Vectors.Vector.InsertHole` | cxx/include/vector:192-208 | items before the hole stay; those after it move up if there was room, and are what `new` left if not |
| `Vectors.Vector.Insert` | cxx/include/vector:210-232 | the inserted contents in both cases, the iterator returned, and when it aborts |
| `Vectors.Vector.Assign` | cxx/include/vector:121-129 | copies the contents, also from itself |
| `Vectors.PushAll` | cxx/include/vector:234-248 | n pushes into an empty vector make fewer than 2n element moves in total and end in the smallest block for n items |
| `Vectors.InsertIntoFull` | cxx/include/vector:193-208 | for every block size, inserting at the front of a vector that fills its block loses all its items |
| `Stdlib.OverflowTest` | c/strtox.c:126-130 | the test before multiplying is true exactly when one more digit passes the limit |
| `Stdlib.Accumulate` | c/strtox.c:126-135 | the accumulator equals the digits' value until that exceeds the limit, never wraps, and the flag is set exactly then |
| `Stdlib.LongestSubject` | c/strtox.c:112-124 | where the scan stops is the end of the longest subject sequence |
| `Stdlib.FinalValue` | c/strtox.c:138-146 | saturation and negation give the value the standard asks for |
| `Stdlib.Strtox` | c/strtox.c:51-151 | for every string: value and end as the standard says; an invalid base gives 0 and leaves `*endptr` alone |
| `Stdlib.NumberParsed` | c/strtox.c:63-146 | any white space, sign, prefix, digits and rest: the end and the clamped or wrapped value, in numbers |
| `Stdlib.NoNumberParsed` | c/strtox.c:63-146 | white space and sign without a digit after them give 0 and the beginning |
| `Stdlib.SixSpaces` | c/ctype.c:29-52 | exactly six characters are white space |
| `Stdlib.DigitValues` | c/strtox.c:114-121 | digits and letters of both cases, with their values |
| `Stdlib.ParsedUnique` | c/stdlib.c:52-98 | the end is the same in all four functions, and the value in both of one signedness |
| `Stdlib.RenderedDigits` | c/strtox.c:112-136 | rendering in a base and summing digits are inverse |
| `Stdlib.RoundTrip` | c/strtox.c:51-151 | parsing the canonical rendering of any in-range value gives it back and consumes all of it |
| `GglPci.ChecksPass` | efi/ggl_pci.c:110-114 | the four masks look at the low 32 bits only |
| `GglPci.ParsePciAddress` | efi/ggl_pci.c:44-116 | succeeds exactly for texts of the two address forms that pass the checks, with the only location they denote |
| `GglPci.AddressShape` | efi/ggl_pci.c:49-93 | an address has one dot and one or two colons; with one, the domain is 0 |
| `GglPci.XDigits` | efi/ggl_pci.c:50 | the digits that may begin a number |
| `GglPci.PrintThenRead` | efi/ggl_pci.c:126-129 | every printed location reads back as itself, and is accepted exactly when it passes the checks |
| `GglPci.PrintShape` | efi/ggl_pci.c:126-129 | a location in range is printed in twelve characters, DDDD:BB:VV.F in lower case |
| `GglPci.PciRoundTrip` | efi/ggl_pci.c:126-129 | every location in range is accepted when printed |
| `GglPci.AcceptedIffInRange` | efi/ggl_pci.c:111-114 | an address text is accepted exactly when its location is in range, if and only if its numbers are below 2^32 or the masks reject them |
| `GglPci.WideDomainAccepted` | efi/ggl_pci.c:111 | a domain of 2^32 is accepted |
| `GglPci.ShortFormMeansDomainZero` | efi/ggl_pci.c:43-44 | BB:dd.f denotes what 0000:BB:dd.f denotes |
| `Malloc.AlignAfterIsFirst` | c/malloc.c:46-50 | the first multiple of 16 at or after the reserved space |
| `Malloc.RawSizeSuffices` | c/malloc.c:61 | the raw block holds header, padding and payload exactly when the sum does not wrap |
| `Malloc.LargestRequestWraps` | c/malloc.c:61 | a request for 2^64 - 1 bytes asks the runtime for 30 |
| `Malloc.ProductCheck` | c/malloc.c:85-88 | the division test of calloc finds every overflow of the product |
| `Malloc.MallocLayout` | c/malloc.c:58-75 | NULL for size 0; else a multiple of 16 within a raw block of size + 31 bytes, with the raw pointer and the size in the 16 bytes before it |
| `Malloc.FreeCases` | c/malloc.c:77-81 | exactly the block freed and its raw block go; NULL is ignored |
| `Malloc.ReallocCases` | c/malloc.c:94-117 | size 0 frees and gives NULL; the pointer stays exactly for 0 < size <= the block's size; a growing call moves or frees the block |
| `Malloc.LiveBlocksApart` | c/malloc.c:69-74 | payloads are aligned, inside their raw blocks, and apart from each other and from all headers |
| `Malloc.ReturnedPointerIsRaw` | c/malloc.c:80 | the header of a live block names its raw block, which is outstanding |
| `Malloc.StepKeepsInv` | c/malloc.c:58-117 | every legal call keeps the invariant |
| `Malloc.FailedReallocFrees` | c/malloc.c:112-116 | NULL from realloc leaves the old block alive exactly when the call cannot fail |
| `Malloc.RunSafe` | c/malloc.c:58-117 | the invariant over every run; only outstanding raw blocks go back; no leak |
| `Malloc.RunKeepsBytes` | c/malloc.c:58-117 | over every run each live payload holds what its owner last wrote, carried along by realloc |
| `Malloc.OtherPayloadsStay` | c/malloc.c:58-117 | no call changes a payload other than the one written |
| `Malloc.Allocator.Malloc` | c/malloc.c:58-75 | NULL for size 0 or no memory; else one new aligned block with its header, and nothing else changed |
| `Malloc.Allocator.Free` | c/malloc.c:77-81 | returns the raw block found in the header, which the runtime has outstanding; NULL does nothing |
| `Malloc.Allocator.Realloc` | c/malloc.c:94-117 | all five cases; a grown block has the old payload; the old block is freed also when growing fails |
| `CStrings.Memcpy` | c/string.c:52-62 | the memory after an upward copy for any overlap; a move when the destination is not inside the source's tail |
| `CStrings.CopiedUpIsMoved` | c/string.c:52-62 | an upward copy is a move exactly when its source repeats itself in the overlap |
| `CStrings.OriginIsRemainder` | c/string.c:52-62 | an upward copy into its own source repeats the part before the overlap |
| `CStrings.Memmove` | c/string.c:65-78 | copies the source as it was wherever the regions lie |
| `CStrings.Strstr` | c/string.c:185-208 | a result is an occurrence; the first one, or NULL exactly without one, if the needle never needs backing up |
| `CStrings.StrstrByAttempts` | c/string.c:192-205 | for any needle, the occurrence found is the one at which an attempt begins, each attempt beginning where the one before failed |
| `CStrings.BackupMissed` | c/string.c:193-196 | any other needle has a haystack in which it is missed |
| `CStrings.StrstrExact` | c/string.c:185-208 | right on all haystacks exactly when the needle never needs backing up |
| `CStrings.FirstCharDoesNotRecur` | c/string.c:185-208 | a needle whose first character does not recur is searched rightly |
| `CStrings.AabMissed` | c/string.c:193-196 | "aab" is missed in "aaab" |
| `CStrings.Strspn` | c/string.c:211-226 | stops at the first char outside the set, or at the end |
| `CStrings.Strpbrk` | c/string.c:229-238 | the first char in the set, or NULL |
| `CStrings.StrtokR` | c/string.c:241-265 | token, save pointer and the one byte changed, for first and continuing calls |
| `CStrings.TokensAreMaximalRuns` | c/string.c:241-265 | the tokens are the maximal delimiter-free runs, all of them, in order |
| `CStrings.CutTokens` | c/string.c:260-263 | each returned pointer designates its token's text, terminated |
| `CStrings.TokenizeAll` | tests/string_test.c:181-191 | calling until NULL yields all tokens, cuts only at their ends, and all further calls are NULL |
| `CStrings.CallsAfterEnd` | c/string.c:241-265 | from the end on, any number of calls return NULL and change nothing |
| `Console.ShownExact` | efi/start_main.c:81-97 | all text is shown, with CR before each LF, exactly when it has no NUL |
| `Console.NulStopsText` | efi/start_main.c:67 | "a\0b" shows as "a" |
| `Console.EveryLfFollowsCr` | efi/start_main.c:67-70 | each LF on the console has a CR in front |
| `Console.OneMorePerLf` | efi/start_main.c:67-70 | as many characters are added as there are LFs |
| `Console.EachCharIsShown` | efi/start_main.c:67-70 | each character is shown, later by one place for each LF up to it |
| `Console.PlainTextStays` | efi/start_main.c:67-70 | ASCII text without LF is shown as it is |
| `Console.Widen` | efi/start_main.c:69 | ASCII stays; a byte of 128 and more becomes 2^16 minus its distance to 256 |
| `Console.ShownFullBlock` | efi/start_main.c:81-97 | blocks of 64 characters are shown one by one, each up to its first NUL |
| `Console.EfiConsole.A2u` | efi/start_main.c:61-74 | converts up to the first NUL, extends signs, stays within 2*len+1, terminates |
| `Console.EfiConsole.Write` | efi/start_main.c:81-118 | shows the text up to its first NUL whatever the chunk boundaries, returns the size |
| `Console.PutcfData.Putcf` | c/stdio.c:105-120 | the abort is unreachable; each character is buffered or flushed in order |
| `Console.Vfprintf` | c/stdio.c:122-142 | what appears on the console, and the count of characters emitted as an int, which is exact below 2^31; -1 for an invalid stream |
| `Console.Vsnprintf` | c/stdio.c:179-200 | stores what fits, terminates it, touches nothing after it, returns the full length as an int |
| `EfiTime.FormulaIsRight` | efi/start_main.c:158-167 | with the adjustment that the comment describes, all twelve months are right |
| `EfiTime.JanuaryIsWrong` | efi/start_main.c:159 | January comes out 7827 or 7828 days late |
| `EfiTime.GettimeWall` | efi/start_main.c:152-176 | the seconds are right exactly when the month is not January, and 7827 or 7828 days too many in January; failure is reported |
| `EfiTime.WrappedSecondsIsWrap` | efi/start_main.c:164-169 | 64-bit wrapping in each step gives the wrapped total |
| `EfiTime.RealSecondsIsPosix` | c/libc.h:54-57 | from 1970 on, summing years and months is the formula of section 4.16 of POSIX.1-2017, plus the zone's minutes unless the zone is 2047 |
| `EfiTime.MonthStarts` | efi/start_main.c:165 | the day of the year on which each month begins |
| `EfiTime.ValidTimeSpelledOut` | efi/start_main.c:152-156 | the dates and times of day that the results are about |
| `EfiTime.LeapDayOf2000` | efi/start_main.c:158-172 | 29 February 2000, 12:34:56, one hour behind, is second 951831296 |
| `CxxString.OrderIsStandard` | c/string.c:36-49 | comparing signed chars agrees with the standard exactly when the differing chars have the same sign |
| `CxxString.HighByteComesFirst` | c/string.c:37-41 | the byte 255 sorts before 1 |
| `CxxString.PrefixOrderIsStandard` | cxx/include/string:116-122 | a proper prefix is less, in both orders |
| `CxxString.String.FromBytes` | cxx/include/string:25-36 | holds the bytes |
| `CxxString.String.Assign` | cxx/include/string:62-69 | copies another string; a string assigned to itself becomes empty |
| `CxxString.String.Resize` | cxx/include/string:136-149 | truncates or pads |
| `CxxString.String.Append` | cxx/include/string:151-165 | appends another string, or an empty one to itself |
| `CxxString.String.Replace` | cxx/include/string:167-189 | s[..pos]+str+s[pos+min(len,size-pos)..], read before the old block is released, also when str is the same object; aborts exactly past the end |
| `CxxString.String.Substr` | cxx/include/string:74-84 | the clipped range in a new string; aborts exactly past the end |
| `CxxString.String.Compare` | cxx/include/string:107-127 | the sign is the lexicographic order; 0 exactly for equal contents |
| `CxxString.Concatenate` | cxx/include/string:229-234 | the contents one after the other, also of a string with itself |

## Left out

- tinyprintf is not part of this model: the formatter's output is any text handed to the callbacks.
- The runtime's allocator, the firmware clock and the console device are parameters or the simplest object with their promise; PCI device lookup, sysfs, mmap, setjmp and argv retrieval are foreign calls.
- `unordered_map` keeps its entries and table as sequences that methods reassign; that `vector` behaves as a sequence is proved in `vector.dfy`, and references held across a reallocation are not modelled.
- UnorderedMap.UnorderedMap.Index: requires fewer than 2^59 entries, because more do not fit a 64-bit address space.
- UnorderedMap.Replay: requires fewer than 2^59 bindings at one time, for the same reason, and sets no bound on the length of the run; the loop over operations stands for a client of the map, which the source has only in its tests.
- Malloc.Allocator.Malloc: the runtime answers with NULL or with size + 31 bytes; Malloc.RawSizeSuffices says exactly when it is asked for that many.
- `calloc` after its overflow test, because it is malloc and a fill, and writes to NULL when malloc fails.
- Vectors.Vector.Insert: what `new T[]` leaves at an index is any value, but the same in each new block of one vector.
- Vectors.Vector.Reserve: requires the size at which the search ends; Vectors.ReserveTerminates says what that is.
- CStrings.TokenizeAll: the loop is a caller's; `strtok` is the same with a static save pointer.
- Console.Vfprintf: the stream accepts all it is given, as the console does; a stream that accepts part is not modelled.
- CxxString.String.Append: a string that is not empty appended to itself, for which the code copies past the end of its block.
- Aliased vector calls that the code does not support: insert or push_back of the vector's own items.
- The ctype table, unique_ptr, pair, optional, moves between containers, and the stubs in `c/unsup.c`: easy members or wrappers.
- errno: no strtox variant sets it.
