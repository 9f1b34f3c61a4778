# dismasmOS verification

A Dafny model of the parts of the dismasmOS kernel that keep intricate state, with machine-checked
proofs about them. `dafny verify dfyconfig.toml` checks everything.

Code that changes state in the kernel is a class or an array algorithm here, proved against a function
or a relation; what the kernel promises is then proved about that specification. The modules named Laws, and
`CalcArithmetic`, say what the specifications mean on inputs and outputs alone, with every limit as a number. `Common` holds the few
definitions several modules share.

**The heap** (`HeaderLayout`, `BlockList`, `HeapImage`, `Heap`, `HeapClients`, `HeapRuns`, `HeapSelfTest`). Physical memory is one
array of bytes. Headers are 48 bytes of that array, read and written field by field in little-endian
order, and stale headers stay where they were. A ghost list of blocks says what the bytes mean. `Heap.Valid`
says: the list tiles the 16 MiB pool exactly, memory holds in front of every block exactly the magic word,
size, flag, next and previous address the list asks for, sizes are multiples of 16, no two neighbours are
both free, and the two counters are the sum and the number of the live blocks. Every entry point keeps it,
for every sequence of calls. The central result is canonicity: the block list is a function of the set of
live blocks, so "allocate then free restores everything" and "freeing everything in any order gives the
initial heap" follow from what happens to that set. Runs are traces: any sequence of calls and of writes into
what the client holds, whose every step is what the call promises. The calls determine the trace, and a payload
keeps its bytes over a whole run unless one of the calls concerns it.

**The calculator and the number printers** (`Numbers`, `CalcGrammar`, `Calc`, `CalcTheorem`, `CalcTraps`,
`CalcArithmetic`). The
recursive-descent parser with its cursor and error flag is proved equal to a function on the text, and that
function accepts a text with a value exactly when the expr/term/factor grammar derives it with that value.
Printing a syntax tree and calculating the text gives the tree's integer value. One calculation has no outcome in
the kernel: the quotient or remainder of -2^63 by -1 does not fit, the division instruction raises the divide
exception, and its handler returns to the same instruction (`src/arch/idt.c:28-30`, `src/arch/idt_asm.s:12-18`).
The model stops there with a result of its own, and `CalcTraps` says exactly which calculations come to it.

**Paths and files** (`CStrings`, `Paths`, `PathResolver`, `PathLaws`, `FileTable`). Path resolution cuts up its
buffer in place; it computes a function of its arguments with three separate limits, whose outputs are
canonical and stable, and which within the limits is a stack fold that composes. The 64 slots stand
for a map from paths to files.

**The editor** (`EditorText`, `EditorWords`, `EditorLayout`, `Editor`, `EditorLaws`). The flat buffer refines a text with a
cursor; a hop goes to the cyclically next misspelt word; the two separate layout computations agree.

**Shell, console, keyboard** (`CommandChain`, `ChainLaws`, `History`, `HistoryLaws`, `Console`, `ConsoleLaws`,
`Keyboard`). `&&` chains, a ring of 32 commands
that stands for the whole list, a 25x80 window that shows the bottom of an unbounded terminal, and the ring
between the keyboard interrupt and its reader, which is a queue of 255 keys in every interleaving of their steps.

Where the code and its documentation differ, the model follows the code:

- The manual's example `calc 0x1000 + 0x200` (`src/shell/wdid_docs_diag.c:101-102`) is said to give
  0x1200. `parse_num` shifts before it tests the next character, so a hex literal that is not the end of the
  text is read sixteen times too big and the result is 0x10200 (`CalcTheorem.ManualExample`).
  `CalcTheorem.HexLiteralExact` says exactly when a hex literal has its face value: when it ends the text, or
  when its value is a multiple of 2^64.
- The repository's README gives 0xDEADBEEFCAFE0001 as the magic word and 0x01000000 as the start of the heap
  (`README.md:119`, `README.md:132`, `README.md:502`). The code uses 0x48454150 and the first page boundary at or
  above `_kernel_end` + 0x10000.
- `malloc` of more than 2^64 - 16 bytes rounds the size to 0 and may hand out an empty block
  (`KernelHeap.GranteeHolds`, `HeapClients.WrappedRequest`).
- A path of 64 characters or more is stored cut, so the file cannot be found under its own name
  (`FileTable.LongPathIsLost`).

## Model

| member | source | states |
|---|---|---|
| HeaderLayout.DecodeEncode | include/heap.h:10-17 | an integer stored as n bytes, least significant first, reads back as itself |
| HeaderLayout.EncodeByte | include/heap.h:10-17 | byte k of a stored integer is v / 256^k % 256 |
| HeaderLayout.HeaderBytes | include/heap.h:10-17 | the fields magic, size, is_free, next and prev are the bytes at offsets 0, 8, 16, 32 and 40 |
| HeaderLayout.ReadStoredWord | include/heap.h:10-17 | a 64-bit field stored in memory reads back as the value stored |
| HeaderLayout.HeaderFrame | include/heap.h:10-17 | a header depends on its own 48 bytes only |
| HeaderAccess.InitHeader | src/mm/heap.c:41-46 | the six field writes leave exactly the given header and touch no byte outside its 48 |
| HeaderAccess.Stretch | src/mm/heap.c:51-52 | writing size and next changes those two fields, no other field and no byte outside the header |
| HeaderAccess.OtherWords | include/heap.h:10-17 | a store to one header field leaves the words of the other fields alone |
| BlockList.PayloadAligned | include/heap.h:7-8 | in a tiled pool with an aligned base every header and every payload is 16-aligned |
| BlockList.PayloadsDisjoint | src/mm/heap.c:38-58 | two different blocks, headers included, do not overlap |
| BlockList.Conservation | src/mm/heap.c:155-165 | pool size = live payload + free payload + 48 per block |
| BlockList.Canonicity | src/mm/heap.c:36-107 | two coalesced tilings of the same pool with the same live blocks are the same list |
| BlockList.NothingLiveIsInitial | src/shell/wdid_docs_diag.c:46-47 | with nothing live the list is the one free block that initialisation makes |
| BlockList.GrantTiled | src/mm/heap.c:39-53 | splitting, or taking whole, a block that fits keeps the pool tiled with sizes that are multiples of 16 |
| BlockList.GrantCoalesced | src/mm/heap.c:39-55 | granting keeps any two neighbours from being both free |
| BlockList.GrantLive | src/mm/heap.c:55-57 | granting adds exactly the granted block to the live ones, its size to the used bytes and one to the count |
| BlockList.MergeTiled | src/mm/heap.c:93-107 | absorbing the block behind keeps the pool tiled |
| BlockList.MergeLive | src/mm/heap.c:93-107 | merging two free blocks changes neither the live blocks nor the sums |
| BlockList.MergeRightCoalesced | src/mm/heap.c:93-99 | after the merge with the next block only the left neighbour may still be free too |
| BlockList.MergeLeftCoalesced | src/mm/heap.c:101-107 | after the merge with the previous block no two neighbours are both free |
| BlockList.FreedLive | src/mm/heap.c:82-91 | marking a live block free removes exactly it from the live ones and from both sums |
| HeapImage.SplitPool | src/mm/heap.c:40-55 | the stores of a split turn a memory image of the old list into one of the new list, prev links included, and keep live payloads |
| HeapImage.MergePool | src/mm/heap.c:94-106 | the stores of a merge turn an image of the old list into one of the merged list and keep live payloads |
| HeapImage.FlagPool | src/mm/heap.c:55-82 | writing one free flag gives the image of the list with that flag changed |
| HeapImage.HeaderWritesKeepPayloads | src/mm/heap.c:39-107 | writes inside headers of the list reach no live payload |
| HeapImage.ClientWrite | src/mm/heap.c:117-146 | a client writing inside one live payload changes no header and no other live payload |
| HeapImage.LivePayloadsDisjoint | src/mm/heap.c:38-58 | two live blocks lie apart, headers included |
| HeapImage.OnlyFreesThrough | src/mm/heap.c:78-107 | two frees in a row write only headers, and clear no free flag, not even of a header absorbed in between |
| KernelHeap.WriteSplit | src/mm/heap.c:40-55 | the stores of a split, in order: remainder header, back link behind it, header of the taken block |
| KernelHeap.WriteMerge | src/mm/heap.c:94-106 | the stores of a merge: size and next of the block that grows, back link behind the absorbed one |
| KernelHeap.Memset | src/lib/string.c:98-104 | the n bytes have the value and no other byte changes |
| KernelHeap.Memcpy | src/lib/string.c:106-113 | the n target bytes are the old source bytes, or the repeated start of the source where the target begins inside it; no other byte changes |
| KernelHeap.AlignRoundsUp | include/heap.h:8 | rounding gives the next multiple of 16 for requests up to 2^64 - 16 and 0 above |
| KernelHeap.GranteeHolds | include/heap.h:8 | a granted block holds the request exactly when the rounding did not wrap |
| KernelHeap.Heap.constructor | src/mm/heap.c:7-11 | before initialisation nothing is live and the counters are zero |
| KernelHeap.Heap.Init | src/mm/heap.c:13-27 | base is the first multiple of 4096 at or above _kernel_end + 0x10000; one free block fills the 16 MiB pool; exactly its 48 header bytes are written, and they are the ones listed |
| KernelHeap.Heap.AcceptsIs | src/mm/heap.c:67-80 | free acts on p exactly when p is at least 48 bytes into the pool and the bytes in front of it are the magic word and a zero flag |
| KernelHeap.Heap.Find | src/mm/heap.c:36-61 | the walk along the next links in memory ends at the first free block that is big enough, or at NULL when there is none |
| KernelHeap.Heap.Carve | src/mm/heap.c:38-55 | taking the block turns the list into the granted list and keeps every live payload |
| KernelHeap.Heap.Discount | src/mm/heap.c:82-91 | the block becomes free, leaves the live ones and both sums, and neither clamp takes effect |
| KernelHeap.Heap.Malloc | src/mm/heap.c:29-64 | NULL and nothing changed exactly when the heap is missing, the request is 0 or no free block fits; else the first-fit block becomes live, both counters follow and no live payload byte changes |
| KernelHeap.Heap.Absorb | src/mm/heap.c:94-106 | the list becomes the merged one, no free flag is cleared, and the absorbed header stays in memory |
| KernelHeap.Heap.CoalesceNext | src/mm/heap.c:93-99 | merging with a free next block keeps the live blocks and leaves at most the left neighbour free too |
| KernelHeap.Heap.CoalescePrev | src/mm/heap.c:101-107 | merging with a free previous block restores the coalesced list |
| KernelHeap.Heap.Free | src/mm/heap.c:66-108 | a pointer that fails free's own test changes nothing at all; a live one leaves the live set, the counters drop by exactly its size and 1, and every other live payload is kept |
| KernelHeap.Heap.Release | src/mm/heap.c:82-107 | releasing a live block: the clamped subtractions are exact, and the block's old header, absorbed or not, keeps its free flag |
| KernelHeap.Heap.Calloc | src/mm/heap.c:110-120 | NULL with nothing changed when the product overflows 64 bits; else an allocation whose nmemb*size bytes are zero |
| KernelHeap.Heap.Realloc | src/mm/heap.c:122-149 | of NULL allocates; of size 0 frees; in place when the block is big enough; on failure nothing changes; else the block moves and its bytes with it; no other live payload changes |
| KernelHeap.Heap.Move | src/mm/heap.c:140-148 | allocate, copy, free: the old block is gone, the new one is live and starts with all the old bytes |
| KernelHeap.Heap.CopyAndFree | src/mm/heap.c:145-147 | the new block starts with all the old bytes, the old block is gone, other live payloads are kept |
| KernelHeap.Heap.LiveIndex | src/mm/heap.c:71-80 | a live pointer passes free's test and belongs to exactly one block |
| HeapClients.SameLiveSameState | src/mm/heap.c:29-108 | two sound heaps at one base with the same live blocks have the same list and counters |
| HeapClients.BackToSameState | src/mm/heap.c:29-108 | any run of calls that ends with the live blocks it began with restores list and counters |
| HeapClients.FirstFitIsLowest | src/mm/heap.c:34-63 | the block taken has the lowest address of all free blocks that fit, and there is one whenever any block fits |
| HeapClients.GrantSlack | src/mm/heap.c:34-58 | a granted block exceeds its request by at most 63 bytes |
| HeapClients.WrappedRequest | include/heap.h:8 | a concrete request above 2^64 - 16 that is granted a block of size 0 |
| HeapClients.FewFreeBlocks | src/mm/heap.c:93-107 | coalescing leaves at most one free block more than there are live ones |
| HeapClients.EnoughFreeBytes | src/mm/heap.c:36-63 | with (live blocks + 1) times the request free in all, some block fits |
| HeapClients.RoomyAllocates | src/mm/heap.c:29-64 | malloc succeeds whenever the counters leave that much room, however scattered |
| HeapClients.GetFree | src/mm/heap.c:159-161 | the value returned is the free payload plus 48 per block |
| HeapClients.MallocThenFree | src/mm/heap.c:29-108 | malloc returns the payload of the first-fit block, or NULL exactly when there is none, and freeing it restores list and counters and keeps all live payloads |
| HeapClients.FreeAgain | src/mm/heap.c:77-80 | freeing a pointer already freed in this run is a no-op, even after its header was absorbed |
| HeapClients.FreeMany | src/mm/heap.c:66-108 | freeing any live pointers in any order, repeats included, releases exactly their blocks |
| HeapClients.FreeAll | src/shell/wdid_docs_diag.c:46-47 | freeing every live pointer in any order leaves the single initial free block and zero counters |
| HeapClients.AllocatedIs | src/mm/heap.c:36-58 | what malloc promises about the live blocks leaves no other list than the one with the first-fit block split or taken |
| HeapRuns.Step | src/mm/heap.c:29-149 | one call, or one write into a held payload: pointer, live blocks, counters and memory are as that call promises, and the client's record of what it holds stays exact |
| HeapRuns.Run | src/mm/heap.c:29-149 | any run follows a trace of such steps from the heap as it was to the heap as it is, and returns the trace's pointers |
| HeapRuns.RunDetermined | src/mm/heap.c:29-149 | the calls determine the run: same pointers, same lists and counters after every step |
| HeapRuns.ReallocKeeps | src/mm/heap.c:122-149 | moved or not, the first min(old block size, new size) bytes are kept, and a pointer returned is a live payload of at least the new size; NULL changes nothing |
| HeapRuns.Survives | src/mm/heap.c:38-149 | over a whole run a payload no call concerns stays allocated and keeps every byte |
| HeapRuns.ReadBack | src/mm/heap.c:38-149 | bytes the client writes are there after any run whose later calls do not concern that payload |
| HeapRuns.GiveBack | src/mm/heap.c:66-108 | freeing everything held, in any order, goes on with the trace and leaves nothing live |
| HeapRuns.RunAndCleanUp | src/shell/wdid_docs_diag.c:46-47 | after any run from an empty heap, freeing exactly what it still holds restores the initial list and counters |
| HeapSelfTest.Compare | src/mm/heap.c:196-201 | the comparison loop tells whether all n bytes have the value |
| HeapSelfTest.WritePatterns | src/mm/heap.c:192-194 | after the three fills all three patterns are in place at once |
| HeapSelfTest.Regrow | src/mm/heap.c:227-237 | realloc fails exactly when the block is too small and no other fits, and else the pattern is at the pointer returned |
| HeapSelfTest.TestAllocations | src/mm/heap.c:176-190 | the code says which request was the first to find no block, and everything taken is given back |
| HeapSelfTest.TestGrowth | src/mm/heap.c:215-242 | 7 exactly when calloc finds no block, 9 exactly when realloc needs one and finds none, else 0 |
| HeapSelfTest.SelfTest | src/mm/heap.c:175-245 | on every path the heap and other payloads are as before; the code is exactly the first request that found no block, never one for damaged bytes; 0 on an empty heap |
| Numbers.ReverseInPlace | src/lib/string.c:142-150 | the swap loop reverses the first n characters and leaves the rest |
| Numbers.Itoa | src/lib/string.c:115-151 | the buffer holds the shortest decimal text of n and its NUL; nothing behind is written |
| Numbers.UtoaHex | src/lib/string.c:153-170 | the buffer holds the shortest upper-case hex text and its NUL |
| Numbers.TextsFit | src/lib/string.c:115-170 | at most 11 decimal or 16 hex characters, so a 12- and a 17-byte buffer do |
| Numbers.DecDigitsValue | src/lib/string.c:130-134 | the decimal digits written denote the number |
| Numbers.DecPlace | src/lib/string.c:130-134 | the digit at place k is the one for n / 10^k % 10, and there are no more digits than needed |
| Numbers.HexDigitsValue | src/lib/string.c:162-165 | the hex digits written denote the number |
| Numbers.HexPlace | src/lib/string.c:154-165 | the digit at place k is the upper-case one for n / 16^k % 16 |
| Numbers.PrintHex | src/shell/shell.c:65-74 | what is put out: prefix, zeros up to eight digits, hex digits |
| Numbers.PrintHexWidth | src/shell/shell.c:65-74 | "0x" and eight digits for what fits in 32 bits, else as many as it takes with no zero in front |
| Numbers.ParseNum | src/shell/shell.c:279-297 | the shift-before-test loop yields the digits' value modulo 2^64, times 16 when hex digits do not end the string |
| Numbers.ParseHexDigits | src/shell/shell.c:281-290 | the hex loop gives the digits' value modulo 2^64, times 16 when something follows them |
| Numbers.HexTables | src/shell/shell.c:286-288 | the sixteen upper-case and the sixteen lower-case digits have the values 0 to 15 |
| Numbers.HexDigitsAre | src/shell/shell.c:286-293 | nothing else is a hex digit, and nothing but 0 to 9 a decimal one |
| Numbers.CaseDoesNotMatter | src/shell/shell.c:281-290 | upper and lower case, of the prefix too, are read as the same number |
| Numbers.OtherTexts | src/shell/shell.c:291-296 | a text that does not begin with a digit is read as 0, and leading zeros count for nothing |
| Numbers.HexRoundTrip | src/shell/shell.c:65-74 | parse_num of "0x", any zero padding and the hex digits of n is n for every 64-bit n |
| Numbers.HexFollowed | src/shell/shell.c:281-290 | the same digits followed by anything else give 16n modulo 2^64 |
| Numbers.DecRoundTrip | src/shell/shell.c:291-295 | decimal digits, whatever non-digit follows, give n modulo 2^64 |
| CalcParser.Calculator.SkipBlanks | src/shell/shell.c:418-420 | the cursor moves to the first character that is not a blank |
| CalcParser.Calculator.Factor | src/shell/shell.c:422-460 | value, cursor and error flag are those of the specification's factor |
| CalcParser.Calculator.Parenthesised | src/shell/shell.c:432-442 | the branch of a factor that starts with a parenthesis, a missing one being an error |
| CalcParser.Calculator.Literal | src/shell/shell.c:443-457 | the value parse_num reads, with the cursor moved over the digits only |
| CalcParser.Calculator.Term | src/shell/shell.c:462-490 | value, cursor and error flag are those of the specification's term, which stops for good at -2^63 / -1 and -2^63 % -1 |
| CalcParser.Calculator.Expression | src/shell/shell.c:492-508 | value, cursor and error flag are those of the specification's expression |
| CalcParser.Calculator.Run | src/shell/shell.c:520-528 | the whole evaluation, with trailing text an error, unless it stopped for good |
| CalcTheorem.FactorParses | src/shell/shell.c:422-460 | a derivable factor is consumed whole, with its value, when what follows cannot extend it |
| CalcTheorem.TermParses | src/shell/shell.c:462-490 | a derivable term ends up at its left-associative value with the rest still to be parsed |
| CalcTheorem.ExprParses | src/shell/shell.c:492-508 | likewise a derivable expression |
| CalcTheorem.FactorFound | src/shell/shell.c:422-460 | whatever factor succeeds on has a derivation with the returned value |
| CalcTheorem.TermFound | src/shell/shell.c:462-490 | whatever term succeeds on has a derivation with the returned value |
| CalcTheorem.ExprFound | src/shell/shell.c:492-508 | whatever expression succeeds on has a derivation with the returned value |
| CalcTheorem.Completeness | src/shell/shell.c:520-528 | every derivable text evaluates to its value, or to an error, or not to the end, as its first division without a value has a zero divisor or traps |
| CalcTheorem.Soundness | src/shell/shell.c:520-528 | whatever is accepted has a derivation with the returned value |
| CalcTheorem.CalculatorCorrect | src/shell/shell.c:416-528 | the calculator accepts a text with value v if and only if the grammar derives it with value v |
| CalcTheorem.Unambiguous | src/shell/shell.c:422-508 | all derivations of a text have the same value, error or trap |
| CalcTheorem.PrintThenCalculate | src/shell/shell.c:416-528 | printing any tree without overflow and calculating the text gives its integer value, or an error, or no outcome, exactly as the tree does |
| CalcTheorem.CalculateDecText | src/lib/string.c:115-151 | the calculator applied to what itoa writes gives the number back, for every int above INT_MIN |
| CalcTheorem.CalculatesIntegers | src/shell/shell.c:416-528 | without overflow and with hex literals zero or at the end, the result is that of the integer operators CalcArithmetic describes |
| CalcTheorem.HexLiteralExact | src/shell/shell.c:281-290 | what parse_num reads of a hex literal and the text behind it is the literal's face value if and only if nothing is behind it or the value is a multiple of 2^64, and else 16 times that |
| CalcTheorem.ManualExample | src/shell/wdid_docs_diag.c:101-102 | the manual's example gives 0x10200, not 0x1200 |
| CalcArithmetic.RingOperators | src/shell/shell.c:471-505 | a + b, a - b and a * b, written out and calculated, are the integer ones whenever they fit |
| CalcArithmetic.Divisions | src/shell/shell.c:472-484 | with q and r the answers for / and %: a = q*b + r, r is smaller than b and has the sign of a; a zero divisor is an error; -2^63 by -1 has no answer |
| CalcArithmetic.TruncatedUnique | src/shell/shell.c:477-483 | no other quotient and remainder have these properties |
| CalcArithmetic.FromTheLeft | src/shell/shell.c:492-508 | a - b - c is (a - b) - c |
| CalcArithmetic.ProductsFirst | src/shell/shell.c:462-508 | products come before sums on either side |
| CalcArithmetic.AroundNumbers | src/shell/shell.c:418-431 | spaces and tabs around a number do not matter, a sign in front does what it says, a line feed is an error |
| CalcArithmetic.WrapCongruent | src/shell/shell.c:471-505 | results out of range wrap to the congruent 64-bit number |
| CalcTraps.TrapExactly | src/shell/shell.c:471-484 | a derivable text traps if and only if, in the order its divisions are carried out, the first one without a value divides -2^63 by -1; it is accepted if and only if all have values |
| CalcTraps.TrapFound | src/shell/shell.c:471-484 | whatever text makes the calculator trap holds a quotient or remainder with those operands |
| CalcTraps.TrappingExample | src/shell/shell.c:471-484 | (-9223372036854775807-1) by -1, as a quotient and as a remainder, traps |
| CStrings.Strlen | src/lib/string.c:3-9 | the length of the string held at the offset |
| CStrings.Strcmp | src/lib/string.c:11-17 | the difference of the first characters that differ, zero exactly for equal strings |
| CStrings.DifferenceAt | src/lib/string.c:11-17 | the difference is that of the first place where the strings differ, first string minus second |
| CStrings.Strncpy | src/lib/string.c:58-67 | the first n characters, NULs up to n, nothing behind |
| CStrings.Strncat | src/lib/string.c:46-56 | the string grows by the first n characters of the source |
| CStrings.Strcat | src/lib/string.c:37-44 | the string grows by the string held in the other buffer |
| CStrings.Strstr | src/lib/string.c:69-87 | the leftmost occurrence, found exactly when there is one |
| Paths.NotLonger | src/fs/fs.c:106-147 | taking out ".", ".." and spare slashes makes an absolute path no longer |
| Paths.ComponentsSplit | src/fs/fs.c:106-119 | a slash between two texts separates their components |
| Paths.ComponentsOfConcat | src/fs/fs.c:101-147 | writing components out and cutting the text up gives them back |
| Paths.ResolveCanonical | src/fs/fs.c:68-148 | output is under 64 characters and canonical, except that it is empty exactly when components survive and all have 63 or more characters |
| Paths.FixedPoint | src/fs/fs.c:68-148 | a canonical path within the limits resolves to itself from any working directory |
| Paths.ResolveIdempotent | src/fs/fs.c:68-148 | non-empty results are fixed points, and no path at all gives a canonical working directory |
| Paths.ResolveIsStackFold | src/fs/fs.c:101-147 | within the 127, 16 and 63 limits resolution is the plain stack fold |
| Paths.ResolveComposes | src/fs/fs.c:68-148 | within the limits resolving a and from there a relative b is resolving a/b; for a working directory that does not start with a slash the second joined text must fit as well |
| PathResolver.Join | src/fs/fs.c:71-99 | the buffer holds the joined and cut text |
| PathResolver.Classify | src/fs/fs.c:121-131 | "." is ignored, ".." drops the last component, anything else is pushed while fewer than 16 are there |
| PathResolver.OneComponent | src/fs/fs.c:107-131 | one round cuts the next component off in place, and the pointers found so far still lead to their components |
| PathResolver.Tokenise | src/fs/fs.c:101-132 | afterwards the pointers lead to the components that survive |
| PathResolver.Build | src/fs/fs.c:134-147 | the surviving components that fit are written out |
| PathResolver.BuildOne | src/fs/fs.c:141-146 | a component is appended exactly when the result stays under 64 characters |
| PathResolver.ResolvePath | src/fs/fs.c:68-148 | the output buffer holds the resolution of the arguments |
| PathLaws.UpUndoes | src/fs/fs.c:123-126 | within the limits a/b/.. resolves to what a does |
| PathLaws.DotStays | src/fs/fs.c:107-122 | within the limits a/. and a/ resolve to what a does |
| PathLaws.RootStays | src/fs/fs.c:124-136 | there is nothing above the root |
| PathLaws.NoPath | src/fs/fs.c:71-79 | no path gives the first 63 characters of the working directory, or the root where there is none |
| PathLaws.SixteenSurvive | src/fs/fs.c:102-131 | of plain components that fit in 127 characters the first 16 survive |
| PathLaws.PlainPath | src/fs/fs.c:101-147 | and when those fit in 63 characters they are the result |
| PathLaws.LongOneSkipped | src/fs/fs.c:140-147 | a component that does not fit in 63 characters is left out, and a later one that does is not |
| PathLaws.CutAt127 | src/fs/fs.c:81-83 | of an absolute path only the first 127 characters count, and the working directory does not |
| PathLaws.RelativeIsJoined | src/fs/fs.c:84-99 | a relative path is the absolute one that begins with the working directory |
| FileTable.AddedIsUpdate | src/fs/fs.c:186-228 | for paths under 64 characters, adding is a map update that succeeds exactly when the path is new and a slot is free |
| FileTable.WrittenIsUpdate | src/fs/fs.c:230-242 | writing replaces the contents of an existing regular file and nothing else |
| FileTable.DeletedIsUpdate | src/fs/fs.c:244-254 | deleting removes that path and nothing else |
| FileTable.LongPathIsLost | src/fs/fs.c:225-226 | a longer path is never found under its own name, and paths stay unique if and only if the cut path was not in use |
| FileTable.SystemPathIs | src/fs/fs.c:179-181 | the system paths are those that begin with /boot or /krnl |
| FileTable.AddedFlagged | src/fs/fs.c:220-226 | system flags stay right for paths of any length |
| FileTable.UsedSlotsArePaths | src/fs/fs.c:150-157 | used slots and paths correspond one to one |
| FileTable.BytesAreTheTables | src/fs/fs.c:401-409 | the sum over the slots is the sum over the map's regular files |
| FileTable.RoomIsFreeSlot | src/fs/fs.c:150-157 | there is a free slot exactly when the map has fewer than 64 paths |
| FileTable.FileSystem.FindSlot | src/fs/fs.c:150-157 | the first unused slot, if any |
| FileTable.FileSystem.Find | src/fs/fs.c:159-167 | the first used slot with that path, if any |
| FileTable.FileSystem.Lookup | src/fs/fs.c:159-167 | the map's entry for the path |
| FileTable.FileSystem.Create | src/fs/fs.c:208-228 | adds an empty regular file exactly when the path is new and fewer than 64 exist |
| FileTable.FileSystem.Mkdir | src/fs/fs.c:186-206 | adds a directory under the same conditions, never for the root |
| FileTable.FileSystem.Write | src/fs/fs.c:230-242 | stores the first 2047 characters exactly for an existing regular file; every other entry stays |
| FileTable.FileSystem.Delete | src/fs/fs.c:244-254 | the map without that path; -1 exactly when it was not there |
| FileTable.FileSystem.IsSystem | src/fs/fs.c:177-184 | the answer is the prefix test; the table lookup never changes it, whatever paths were created |
| FileTable.FileSystem.IsDir | src/fs/fs.c:169-175 | the root, or a directory of the map |
| FileTable.FileSystem.UsedBytes | src/fs/fs.c:401-409 | the sum over the map's regular files |
| FileTable.ChangeLog.Record | src/fs/fs.c:9-27 | the event joins the history of the run, with its texts cut to the fields, and the log stays what it holds of it |
| FileTable.ChangeLog.Recent | src/fs/fs.c:9-27 | the log holds the last 64 events, oldest first |
| FileTable.CutIs | src/fs/fs.c:17-24 | what is kept of the texts is their first 9, 15 and 63 characters |
| EditorText.InsertThenBackspace | src/em/em.c:588-609 | insert then backspace is the identity when the buffer is not full |
| EditorText.LeftThenDelete | src/em/em.c:510-597 | move left then delete is backspace |
| EditorText.UpThenDown | src/em/em.c:522-564 | up then down is the identity if and only if the line above is at least as long as the column |
| EditorText.DownThenUp | src/em/em.c:522-564 | down then up is the identity if and only if the line below is at least as long as the column |
| EditorLaws.WritingKeys | src/em/em.c:772-781 | a printable key, Enter and Tab put their characters in at the cursor up to 2047 in all; other codes do nothing |
| EditorLaws.TypeText | src/em/em.c:599-609 | typing a text puts it in at the cursor |
| EditorLaws.ErasingKeys | src/em/em.c:578-597 | Delete takes the character under the cursor out, Backspace the one before it, and no other |
| EditorLaws.MovingKeys | src/em/em.c:510-576 | Left and Right go one character, Home and End to the ends of the line |
| EditorLaws.UpGoes | src/em/em.c:522-540 | Up goes to the same column of the line above or to its end, and stays in the first line |
| EditorLaws.DownGoes | src/em/em.c:542-564 | Down goes to the same column of the line below or to its end, and stays in the last line |
| EditorWords.HopUnique | src/em/em.c:423-480 | there is at most one place for a hop to go |
| EditorWords.HopStays | src/em/em.c:423-480 | a hop stays where it is if and only if there is no typo but the one under the cursor |
| EditorWords.SoleTypo | src/em/em.c:455-477 | an example: with one misspelt word in the text the wrap pass finds it again |
| EditorLaws.HopGoesOn | src/em/em.c:423-480 | a hop goes on to the nearest typo behind the cursor, or where there is none to the first of the text |
| EditorLaws.WholeWord | src/em/em.c:433-438 | letters with no letter before or behind are judged as one word, and no word starts inside it |
| EditorWords.HopIsNext | src/em/em.c:423-480 | from a typo the hop goes to the cyclically next typo |
| EditorWords.TourFollows | src/em/em.c:423-480 | k hops from the j-th typo reach the one k places on in the cycle |
| EditorWords.TourVisitsAll | src/em/em.c:423-480 | with n typos, n hops visit each exactly once and return |
| EditorLayout.CellsIncrease | src/em/em.c:278-295 | later characters have later cells, so distinct ones have distinct cells |
| EditorLayout.DrawnWhere | src/em/em.c:297-339 | a visible character is drawn in its own cell and not overwritten |
| EditorLayout.DrawnOnlyThere | src/em/em.c:298-302 | a cell no visible character owns is blank |
| EditorLayout.LayoutAgreement | src/em/em.c:278-339 | every visible character is in exactly the cell the cursor computation names, no two share one, all other text cells are blank |
| EditorLaws.RowAndColumn | src/em/em.c:281-292 | without newlines character i is in row i / 80 at column i % 80 |
| EditorLaws.RowAfterNewline | src/em/em.c:282-284 | a newline goes down one row to its start, and the characters behind it go on from there |
| EditorLaws.PlainScreen | src/em/em.c:297-339 | the 1840 text cells show the first 1840 characters of a text without newlines, and blanks behind it |
| EditorMachine.Editor.InsertChar | src/em/em.c:599-609 | a character is inserted at the cursor unless 2047 are there |
| EditorMachine.Editor.OpenGap | src/em/em.c:601-603 | the shifting loop makes room for one character and keeps all others in order |
| EditorMachine.Editor.CloseGap | src/em/em.c:580-582 | the shifting loop removes one character and moves no other |
| EditorMachine.Editor.DeleteChar | src/em/em.c:578-586 | the character under the cursor is removed |
| EditorMachine.Editor.BackspaceChar | src/em/em.c:588-597 | the character before the cursor is removed |
| EditorMachine.Editor.MoveLeft | src/em/em.c:510-514 | one back, unless at the start |
| EditorMachine.Editor.MoveRight | src/em/em.c:516-520 | one on, unless at the end |
| EditorMachine.Editor.MoveUp | src/em/em.c:522-540 | same column of the line above, or its end |
| EditorMachine.Editor.MoveDown | src/em/em.c:542-564 | same column of the line below, or its end |
| EditorMachine.Editor.MoveHome | src/em/em.c:566-570 | start of the line |
| EditorMachine.Editor.MoveEnd | src/em/em.c:572-576 | end of the line |
| EditorMachine.Editor.PressKey | src/em/em.c:751-781 | one key in writing mode, a tab being four spaces |
| EditorMachine.Editor.PressKeys | src/em/em.c:751-781 | any run of keys does to the buffer what it does to a text with a cursor; the buffer stays NUL-terminated and within 2047 characters |
| EditorMachine.Editor.Scan | src/em/em.c:431-477 | one pass over whole words finds the first typo of its range; neither pass cuts a word in two |
| EditorMachine.Editor.HopError | src/em/em.c:423-480 | the cursor goes to the first typo after it or else the first of all; it stays if and only if there is no typo other than one starting at it |
| EditorMachine.Editor.GetCursorRowCol | src/em/em.c:278-295 | row and column of the cursor by scanning every character |
| EditorMachine.Editor.DrawWord | src/em/em.c:317-325 | drawing a word in one go is drawing its characters one by one |
| EditorMachine.Editor.DrawAt | src/em/em.c:331-337 | one character goes into the cell of its position, and the next position is that of the next character |
| EditorMachine.Editor.Render | src/em/em.c:297-339 | the text rows after the word-wise scan are the character-wise drawing |
| EditorMachine.Editor.Save | src/em/em.c:405-413 | saves unless the file is new and the table full; a regular or new file then holds the text, a directory is left alone, and the event is logged |
| EditorMachine.Editor.Load | src/em/em.c:700-721 | the first 2047 characters of the file, or nothing, with the cursor at the start |
| EditorMachine.Editor.CopyIn | src/em/em.c:712-717 | at most 2047 characters and their NUL are copied in |
| EditorMachine.Editor.SaveThenLoad | src/em/em.c:405-721 | saving to a regular or new file and loading it again gives the same text, which the file holds; no other file changes and both events are logged |
| CommandChain.SplitJoins | src/shell/shell.c:1256-1260 | joining the pieces gives the line back, and no piece contains a separator |
| CommandChain.SplitUnique | src/shell/shell.c:1256-1260 | it is the only split that is leftmost |
| CommandChain.TrimInPlace | src/shell/shell.c:1261-1264 | the trimming loops leave the trimmed text and write one NUL |
| CommandChain.RunPiece | src/shell/shell.c:1261-1270 | a piece is trimmed and run unless empty, and no byte behind the piece changes |
| CommandChain.HandleLine | src/shell/shell.c:1254-1283 | exactly the trimmed non-empty pieces run, in order, up to the first that fails, for every command semantics |
| ChainLaws.TrimTakesSpacing | src/shell/shell.c:1261-1264 | trimming takes spaces and tabs off both ends and nothing else |
| ChainLaws.LineHasCommands | src/shell/shell.c:1254-1283 | the commands of a line are exactly the texts between the spacing of its pieces, empty ones apart |
| ChainLaws.OneCommand | src/shell/shell.c:1272-1280 | a line without "&&" runs its whole text between the spacing as one command |
| ChainLaws.HandleOne | src/shell/shell.c:1254-1283 | handle_line on such a line does what that command does |
| ChainLaws.StopsAtFailure | src/shell/shell.c:1265-1270 | the commands up to the first that fails run, in order, and no other |
| Console.LineFeed | src/drivers/vga.c:62-64 | a line feed moves the cursor on the screen, or starts a last row that is one scroll away |
| Console.Screen.constructor | src/drivers/vga.c:48-51 | a cleared screen shows a fresh terminal |
| Console.Screen.ClearScreen | src/drivers/vga.c:37-46 | clearing restarts the terminal |
| Console.Screen.ShiftUp | src/drivers/vga.c:21-28 | the copying loops show the window one row further down |
| Console.Screen.Scroll | src/drivers/vga.c:19-31 | scrolling restores the screen invariant |
| Console.Screen.EraseChar | src/drivers/vga.c:53-59 | backspace erases to the left within the row |
| Console.Screen.PutCharacter | src/drivers/vga.c:61-84 | one character, with line feed, return, tab and 80-column wrap, does to the window what it does to the unbounded terminal |
| Console.Screen.Play | src/drivers/vga.c:19-84 | over any run the 25x80 screen and its cursor show the bottom of the terminal, with row < 25 and column < 80 |
| Console.Screen.CellShows | src/drivers/vga.c:73 | cell 80*y + x of the screen is the cell in row y of the last 25 rows |
| ConsoleLaws.TextPlace | src/drivers/vga.c:72-80 | from a cleared console character k of a text is in row k / 80 at column k % 80, and all other cells are blank |
| ConsoleLaws.ShowText | src/drivers/vga.c:19-84 | the 2000 cells after a text of any length: its last rows, and blanks behind it |
| ConsoleLaws.LineEnds | src/drivers/vga.c:62-66 | a line feed goes to the start of the next row, a return to the start of the same, and no row changes |
| ConsoleLaws.Tab | src/drivers/vga.c:70-80 | a tab goes to the next multiple of 4, or from column 76 on to the start of the next row, and writes nothing |
| ConsoleLaws.PutThenErase | src/drivers/vga.c:53-74 | a character and a backspace leave the cursor where it was and only its cell blank; in the last column the backspace does nothing |
| ConsoleLaws.EraseAtStart | src/drivers/vga.c:53-59 | a backspace at the start of a row does nothing |
| ConsoleLaws.Cleared | src/drivers/vga.c:37-46 | 25 blank rows of 80 columns, the cursor in the corner |
| Keyboard.Ring.Enqueue | src/arch/kbd.c:257-263 | the ring takes a key in as the queue does, dropping it exactly when 255 wait, and the slot being read is never overwritten |
| Keyboard.Ring.Consume | src/arch/kbd.c:265-272 | each of the reader's three steps is the queue's: it waits exactly when nothing does, reads the oldest key, and delivers what it read |
| Keyboard.Ring.Run | src/arch/kbd.c:248-272 | after every interleaving the keys accepted, the keys delivered and the reader's place are those of the queue; what is delivered is a prefix of what is accepted |
| Keyboard.ThreeSteps | src/arch/kbd.c:265-272 | three reader steps deliver the oldest waiting key, whatever arrives between them |
| Keyboard.KeyArrives | src/arch/kbd.c:257-263 | a key is taken in exactly while fewer than 255 wait, and changes nothing else |
| Keyboard.BurstKept | src/arch/kbd.c:257-263 | of a burst as many keys are taken in as make 255 waiting, in order |
| Keyboard.Drains | src/arch/kbd.c:265-272 | the reader by itself delivers one key in three steps, in order, and waits when there is none |
| History.Recall.Add | src/shell/shell.c:1290-1300 | blank lines and repeats are not kept; the ring always holds the last 32 commands of the unbounded list |
| History.Recall.Recollect | src/shell/shell.c:1346-1347 | the line buffer holds the recalled command |
| History.Recall.PressUp | src/shell/shell.c:1333-1349 | one command further back in the unbounded list, as far as the ring reaches: the slot read holds that command |
| History.Recall.PressDown | src/shell/shell.c:1350-1367 | one command forward, and past the newest an empty line |
| History.Recall.PressEnter | src/shell/shell.c:1318-1327 | the line in the buffer joins the list and the prompt is empty again |
| History.Recall.PressChar | src/shell/shell.c:1368-1373 | the buffer takes the characters the session takes, at most 127 |
| History.Recall.PressKeys | src/shell/shell.c:1317-1373 | any run of keys does to ring, index and buffer what it does to a session with its whole list; no two neighbours of the list are equal |
| History.UpMany | src/shell/shell.c:1333-1349 | k presses of Up from the prompt show the min(k, 32, total)-th newest command |
| History.DownMany | src/shell/shell.c:1350-1367 | j presses of Down come j commands forward, or to the blank line |
| History.UpThenDown | src/shell/shell.c:1333-1367 | k Up then k Down with k at most min(32, total) is back on the blank prompt |
| History.TypeThenRubout | src/shell/shell.c:1328-1373 | typing a character and rubbing it out leaves the session as it was if and only if the line had room |
| HistoryLaws.EnterThenUp | src/shell/shell.c:1290-1349 | a line that is entered is the newest command, added unless it already was, and Up brings it back |
| HistoryLaws.EnterClears | src/shell/shell.c:1318-1327 | entering leaves a blank prompt, and a blank line is not kept |
| HistoryLaws.Typed | src/shell/shell.c:1368-1373 | a character of code 32 to 255 other than 127 goes to the end of a line of fewer than 127; anything else is ignored |
| HistoryLaws.Rubbed | src/shell/shell.c:1328-1332 | backspace takes the last character off |
| HistoryLaws.TypeEnterUp | src/shell/shell.c:1317-1373 | typing a command, entering it and pressing Up shows it again |
| HistoryLaws.UpShows | src/shell/shell.c:1333-1349 | k presses of Up show the k-th newest command, at most the 32nd and at most the oldest |

## Left out

- KernelHeap.Heap.Free: requires that a pointer which passes free's own test is live; bytes a client wrote that happen to look like a header are not told apart by the code either.
- KernelHeap.Heap.Calloc: excludes products between 2^64 - 15 and 2^64 - 1 when some block is free, for which the code clears bytes outside the block it was given.
- KernelHeap.Heap.Realloc: of a live pointer is stated for sizes up to 2^64 - 16, and above them when no block is free; else the code copies into a block that was asked to have size 0; of a freed pointer whose header is still marked with the magic word only for size 0, other sizes being undefined in C.
- KernelHeap.Heap.Move: excludes the same sizes as Realloc.
- KernelHeap.WriteSplit: the padding bytes of a remainder's header are cleared in the model too, but only those of the first header are stated (KernelHeap.Heap.Init).
- Numbers.Itoa: excludes INT_MIN, whose negation is undefined in C.
- CalcParser.Calculator.Run: evaluates the 64-bit value; joining the arguments into the 128-byte buffer, the messages and the decimal display, which narrows to 32 bits, are not modelled.
- CalcTheorem.CalculatorCorrect: says zero versus non-zero error flag only, because a missing ")" can turn code 2 into code 1; overflow of sums, differences, products and negations, undefined in C, is modelled as wrap-around.
- EditorMachine.Editor.HopError: the word test is an arbitrary predicate; the dictionaries, the length limits of is_typo and the messages are not modelled.
- EditorMachine.Editor.PressKey: writing mode only, without the key that leaves it; command mode and its commands are not modelled.
- CommandChain.HandleLine: a command is an arbitrary function of a state and its own text that may rewrite its text in place but not the bytes behind it; tokenize (`src/shell/shell.c:1080-1097`), which writes so, is not modelled itself.
- History.Recall.Add: hist_total is unbounded, so its 32-bit overflow is not modelled; the ring's entries are strings rather than 128-byte arrays, and echoing to the screen is left out.
- FileTable.FileSystem.Write: file contents are the first size characters of the slot's buffer; what lies behind them is not modelled.
- FileTable.FileSystem.Create: for paths of 64 characters and more only the slots are stated; uniqueness is then FileTable.LongPathIsLost.
- Keyboard.Ring.Run: safety only; whether the halt in kbd_getchar is woken is not modelled.
- The initial files of fs_init, fs_list, fs_file_count and directory-tree claims: the code does not check that a parent exists.
- Scancode decoding and keymaps: table lookups.
- Colours and attribute bytes, status bars, dialogs and the documentation pager: user interface; only characters and the cursor are modelled.
- Port I/O, interrupt stubs, boot code, and the commands that read raw memory or CPU state.
- The process table and the mouse: they would add only easy members.
