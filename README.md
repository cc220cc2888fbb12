# Pintos kernel core in Dafny

A model of the core of a Pintos teaching kernel, with proofs about it. The model covers:

- the 17.14 fixed-point library and the three MLFQS scheduler formulas built on it;
- the kernel bitmap;
- the page allocator;
- the array heap;
- the boot-time command-line parsing and interactive console of `threads/init.c`;
- the semaphores, locks with priority donation, and condition variables of `threads/synch.c`.

Each source file is one module, or two:

| module (file) | models | form |
|---|---|---|
| `Fixed1714` (fixed1714.dfy) | `src/lib/fixed1714.c` | functions on a 32-bit raw word |
| `Formula` (formula.dfy) | `src/lib/formula.c` | functions |
| `BitSeq`, `Bitmap` (bitmap.dfy) | `src/lib/kernel/bitmap.c` | class over an array of 32-bit words |
| `Palloc` (palloc.dfy) | `src/threads/palloc.c` | classes `Pool` and `PageAllocator` |
| `Heaps` (heap.dfy) | `src/lib/kernel/heap.c` | class over an array of element references |
| `Console`, `CommandLine` (console.dfy, command_line.dfy) | parsing in `src/threads/init.c` | methods proved against functions |
| `SynchSpec`, `SynchInvariant`, `Synch` (synch_spec.dfy, synch_invariant.dfy, synch.dfy) | `src/threads/synch.c` | class `Sync` proved against pure functions |

Two small modules hold shared definitions:

- `Wrappers` holds `Option`, which stands in for nullable pointers.
- `ThreadLimits` holds `PRI_MIN`, `PRI_MAX` and the `nice` range of the thread interface. `threads/thread.h` is not part of this model.

**Fixed point.** C arithmetic is written out:

- `/` truncates toward zero (`TruncDiv`).
- `>>` floors (`ShiftRight`).
- A 64-bit intermediate cut to `int32_t` wraps (`Wrap32`).
- Signed overflow, which is undefined behaviour in C, becomes a precondition.

`fixed1714_to_int_zero` is an arithmetic shift, so despite its name it floors. `ToIntZeroFloorsNegatives` states this.

**Bitmap.** A bitmap is an array of 32-bit words. Each word is a sequence of 32 bits, and the masks are built from the numbers the source computes (`1 << k`, `(1 << m) - 1`). Every operation is proved against `Bits()`, the first `bit_cnt` bits. The operations that change bits also state what happens to the raw words.

**Page allocator.** Pages are numbered. A pool is its bitmap plus the number of its first page. `palloc_init` splits the free RAM above 1 MiB between the kernel pool and the user pool.

**Heap.** Elements are references, so `heap_pop_front` and `heap_front` return the very object that was pushed. The array keeps its capacity. `heap_push_back` on a full heap panics; the model returns that panic as a flag and leaves the heap unchanged.

**`init.c`.** The parsing half of the file is modelled:

- `readline` runs over a given keystroke sequence.
- `tokenize` splits a line at spaces and tabs.
- `read_command_line` reads the 128-byte loader area.
- `parse_options` handles the option arguments.
- The action table serves both the batch path (`run_actions`) and the interactive path (`run_interactive`).

Each loop is a method whose `ensures` ties it to a function. The lemmas are about those functions.

**Synchronization.** The kernel state is four maps:

- thread id to the fields synch.c touches: `priority`, `before_donated_priority`, `donated`, the semaphore it is blocked on, and the list of locks it holds;
- semaphore id to its value, waiter list and the structure it is embedded in;
- lock id to its holder and its semaphore;
- condition id to its list of `semaphore_elem`s.

Intrusive lists and `container_of` become these ids. Class `Sync` holds the maps and the running thread. Each method is one call of a primitive by the running thread with interrupts off. A call that would block ends with the caller on the waiter list. What the woken thread does next is the method it calls next:

- `TakeLock`, to finish `lock_acquire`;
- `SemaDown` on its own `semaphore_elem` and then `LockAcquire`, to finish `cond_wait`.

Every method keeps `Valid()`, the invariant `SynchInvariant.Coherent`. It says that:

- every waiter of a semaphore is a known thread blocked on that semaphore, and waiter lists are duplicate-free;
- a lock's semaphore is the one embedded in it, with value 1 when the lock is free and 0 when it is held;
- in strict mode the holder lists the lock, and a thread lists only locks it holds, each at most once;
- every `semaphore_elem` on a condition's list has value 0 and exactly one waiter. This holds because the model's `CondWait` queues the element, releases the lock and blocks the caller in one step. In the source, the element sits on the list without a waiter while `lock_release` runs, and `sema_up` can yield there (`SynchInvariant.CondWaitWindowBreaksSignal`);
- priorities stay within `PRI_MIN..PRI_MAX`, and the running thread is a known thread.

The new state of each method is stated by the functions of `SynchSpec`:

- `Woken` picks the thread `sema_up` wakes: the first maximum-priority waiter, or the front under MLFQS.
- `Donate` gives the priority donation along the holder chain.
- `NextPriority` and `Released` give the priority a releasing holder falls back to.

`lock_release` is modelled as written. Whenever a lock the holder still has has a waiter, with or without a donation, the holder takes the highest waiter's priority, even where that is below its own base priority. `donated` is only cleared, never read; the base priority comes back only when no lock it still has has a waiter. `SynchInvariant.ReleaseBelowBase` shows a state where this happens.

## Model

| member | source | states |
|---|---|---|
| Fixed1714.TruncDiv | src/lib/fixed1714.c:64-68 | C's `/`: the remainder has the dividend's sign and is smaller than the divisor; the quotient's magnitude times the divisor's is at most the dividend's |
| Fixed1714.ShiftRight | src/lib/fixed1714.c:11 | `>> 14` is the floor: `q*2^14 <= x < q*2^14 + 2^14` |
| Fixed1714.Wrap32 | src/lib/fixed1714.c:46-50 | cutting to `int32_t` keeps the value modulo 2^32 and changes nothing that already fits |
| Fixed1714.TruncDivInt32 | src/lib/fixed1714.c:64-68 | a 32-bit division other than INT32_MIN / -1 gives a 32-bit result |
| Fixed1714.MakeFixed | src/lib/fixed1714.c:4-9 | `(numerator << 14) / denominator` is the truncated quotient: the remainder bound in both sign cases |
| Fixed1714.ToIntZero | src/lib/fixed1714.c:11 | the result is the floor of the value, `r*F <= raw < r*F + F` |
| Fixed1714.ToIntZeroOfInt | src/lib/fixed1714.c:4-11 | converting an integer to fixed point and back gives it back |
| Fixed1714.ToIntZeroFloorsNegatives | src/lib/fixed1714.c:11 | `to_int_zero` of -1/16384 is -1, not 0: it floors |
| Fixed1714.ToIntRound | src/lib/fixed1714.c:13-20 | as written: floor of value + 1/2 for non-negative values, floor of value - 1/2 for negative ones |
| Fixed1714.ToIntRoundOfNonNegative | src/lib/fixed1714.c:13-20 | a non-negative integer round-trips through `to_int_round` |
| Fixed1714.ToIntRoundOfNegative | src/lib/fixed1714.c:13-20 | every negative integer n comes back as n - 1 |
| Fixed1714.ToIntRoundMinusOne | src/lib/fixed1714.c:13-20 | `to_int_round(fixed1714(-1, 1)) == -2` |
| Fixed1714.ToIntNearest | src/lib/fixed1714.c:13-20 | corrected rounding: within half an ulp of 1.0 of the value, and halves round away from zero |
| Fixed1714.ToIntNearestOfInt | src/lib/fixed1714.c:13-20 | every integer, negative ones included, round-trips through the corrected rounding |
| Fixed1714.RoundingsAgree | src/lib/fixed1714.c:13-20 | the two roundings agree on non-negative values; on negative ones both are at most 0 |
| Fixed1714.ToIntNearestMono | src/lib/fixed1714.c:13-20 | the corrected rounding is monotone |
| Fixed1714.ShiftRightMono | src/lib/fixed1714.c:11 | the arithmetic shift is monotone |
| Fixed1714.TruncDivMono | src/lib/fixed1714.c:64-68 | truncating division by a positive divisor is monotone |
| Fixed1714.Add | src/lib/fixed1714.c:22-26 | exact: subtracting y gives x back; the integer part is the sum of the integer parts, or one more when the fractions carry |
| Fixed1714.AddInt | src/lib/fixed1714.c:28-32 | the integer part moves up by exactly n and the fraction is kept |
| Fixed1714.Sub | src/lib/fixed1714.c:34-38 | the integer part is the difference of the integer parts, or one less when the fractions borrow; the result is at most x iff y is non-negative |
| Fixed1714.SubInt | src/lib/fixed1714.c:40-44 | the integer part moves down by exactly n and the fraction is kept |
| Fixed1714.Mul | src/lib/fixed1714.c:46-50 | when the shifted 64-bit product fits in 32 bits, the result is its floor, `z*2^14 <= x*y < z*2^14 + 2^14`; it always equals the shifted product modulo 2^32 |
| Fixed1714.MulInt | src/lib/fixed1714.c:52-56 | `div_int` by the same non-zero n gives x back |
| Fixed1714.Div | src/lib/fixed1714.c:58-62 | when the quotient fits in 32 bits, `(x << 14) / y` truncates: the remainder has x's sign and is smaller than abs(y); it always equals the truncated quotient modulo 2^32 |
| Fixed1714.ToIntRoundMono | src/lib/fixed1714.c:13-20 | the as-written rounding is monotone, across the change of sign too |
| Fixed1714.AddSubInverse | src/lib/fixed1714.c:22-44 | `sub` undoes `add`, and `sub_int` undoes `add_int` |
| Fixed1714.MulOne | src/lib/fixed1714.c:46-50 | multiplying by 1.0 is the identity |
| Fixed1714.DivOne | src/lib/fixed1714.c:58-62 | dividing by 1.0 is the identity |
| Fixed1714.MulIntOfInt | src/lib/fixed1714.c:52-56 | `mul_int` of an integer's fixed form is the fixed form of the product |
| Fixed1714.DivIntMulInt | src/lib/fixed1714.c:52-68 | `div_int(mul_int(x, n), n) == x` |
| Fixed1714.DivInt | src/lib/fixed1714.c:64-68 | the raw quotient is the truncated quotient: the remainder bound in both sign cases |
| Fixed1714.One | src/lib/fixed1714.c:4-9 | `fixed1714(1, 1)` has raw value 2^14 |
| Formula.PriorityValue | src/lib/formula.c:6-11 | the unrounded priority is PRI_MAX - recent_cpu/4 - 2*nice, on raw words |
| Formula.FormulaPriority | src/lib/formula.c:6-14 | corrected: the result is the nearest integer to the unrounded priority |
| Formula.FormulaPriorityAsWritten | src/lib/formula.c:6-14 | as written: the floor of the unrounded priority plus 1/2 when it is non-negative, and the floor of it minus 1/2 when it is negative |
| Formula.PriorityRoundingAgrees | src/lib/formula.c:6-14 | where the as-written and corrected results differ, both are at most PRI_MIN |
| Formula.PriorityAtZeroCpu | src/lib/formula.c:6-14 | with no recent CPU the priority is PRI_MAX - 2*nice |
| Formula.PriorityAsWrittenAtZeroCpu | src/lib/formula.c:6-14 | the source agrees with that whenever the result is non-negative |
| Formula.PriorityMonotoneInCpu | src/lib/formula.c:6-14 | more recent CPU never raises the priority |
| Formula.PriorityMonotoneInNice | src/lib/formula.c:6-14 | a higher nice never raises the priority |
| Formula.PriorityAsWrittenMonotoneInCpu | src/lib/formula.c:6-14 | as written too, more recent CPU never raises the priority |
| Formula.PriorityAsWrittenMonotoneInNice | src/lib/formula.c:6-14 | as written too, a higher nice never raises the priority |
| Formula.DecayFactor | src/lib/formula.c:17 | `fixed1714(59, 60)` is 16110, the truncation of 59/60 |
| Formula.FormulaLoadAvg | src/lib/formula.c:16-20 | load_avg' = 59/60 * load_avg + ready_threads/60, on raw words |
| Formula.ScaleByFraction | src/lib/fixed1714.c:46-50 | multiplying by a fixed fraction below 1.0 shrinks a positive value |
| Formula.DecayShrinks | src/lib/formula.c:17 | `mul(59/60, x)` lies in [0, x], and strictly below x when x > 0 |
| Formula.LoadAvgDecays | src/lib/formula.c:16-20 | with no ready threads the load average does not grow, and strictly shrinks when positive |
| Formula.IdleUpdates | src/lib/formula.c:16-20 | repeated idle updates keep the load average non-negative |
| Formula.LoadAvgReachesZero | src/lib/formula.c:16-20 | after raw(load_avg) idle updates the load average is exactly 0 |
| Formula.FormulaRecentCpu | src/lib/formula.c:22-27 | recent_cpu' = (2*la)/(2*la + 1) * recent_cpu + nice, on raw words |
| Formula.RecentCpuAtZeroLoad | src/lib/formula.c:22-27 | with a zero load average, recent_cpu' is exactly nice |
| Formula.CoefficientBelowOne | src/lib/formula.c:23-24 | the decay coefficient lies in [0, 1.0) |
| Formula.RecentCpuBound | src/lib/formula.c:22-27 | recent_cpu' is at most recent_cpu + nice |
| BitSeq.Repeat | src/lib/kernel/bitmap.c:166-170 | n copies of one bit |
| BitSeq.SetRange | src/lib/kernel/bitmap.c:173-181 | bits in [start, start+cnt) take the value, and every other bit is kept |
| BitSeq.CountOf | src/lib/kernel/bitmap.c:185-196 | the count is at most the length; it is 0 iff the value is absent, and the length iff every bit has it |
| BitSeq.CountSplit | src/lib/kernel/bitmap.c:185-196 | the counts of true and false add up to the length |
| BitSeq.CountAppend | src/lib/kernel/bitmap.c:185-196 | counting distributes over concatenation |
| BitSeq.CountRepeat | src/lib/kernel/bitmap.c:185-196 | the count in n copies of a bit |
| BitSeq.SetRangeCount | src/lib/kernel/bitmap.c:173-196 | setting a range to true adds the range's false bits to the count of true |
| BitSeq.SetFreeRunCount | src/lib/kernel/bitmap.c:173-196 | setting a free run of cnt bits raises the count of true by exactly cnt |
| BitSeq.ScanFrom | src/lib/kernel/bitmap.c:232-253 | a hit is the first index at or after `from` where a run of cnt bits has the value; a miss means no such run exists |
| BitSeq.ScanEmptyWindow | src/lib/kernel/bitmap.c:232-253 | scanning for a run of 0 bits finds `from` |
| BitSeq.SetRangeUndo | src/lib/kernel/bitmap.c:262-272 | flipping a uniform run and setting it back restores the bits |
| Bitmap.Pow2 | src/lib/kernel/bitmap.c:40 | `1 << n`: larger than n, and even for n > 0 |
| Bitmap.PowerBits | src/lib/kernel/bitmap.c:40 | `1 << m` has exactly bit m set |
| Bitmap.ElemIdx | src/lib/kernel/bitmap.c:36 | the word index of a bit: the word that contains it |
| Bitmap.BitMask | src/lib/kernel/bitmap.c:40 | exactly bit `idx % 32` is set |
| Bitmap.ElemCnt | src/lib/kernel/bitmap.c:43 | the fewest words that hold bit_cnt bits |
| Bitmap.ByteCnt | src/lib/kernel/bitmap.c:46 | a whole number of words, holding bit_cnt bits with less than a word to spare |
| Bitmap.LastMask | src/lib/kernel/bitmap.c:50-53 | the bits of the last word in use: all of them when bit_cnt is a multiple of 32, else the low `bit_cnt % 32` |
| Bitmap.BufSize | src/lib/kernel/bitmap.c:91 | header plus words, enough for bit_cnt bits with less than a word to spare |
| Bitmap.WordBits | src/lib/kernel/bitmap.c:36-43 | bit i of the bitmap is bit i%32 of word i/32 |
| Bitmap.TestBit | src/lib/kernel/bitmap.c:157-161 | `word & mask != 0` iff the bit is set |
| Bitmap.MarkBit | src/lib/kernel/bitmap.c:121-129 | `word \| mask` sets just that bit |
| Bitmap.ResetBit | src/lib/kernel/bitmap.c:132-140 | `word & ~mask` clears just that bit |
| Bitmap.FlipBit | src/lib/kernel/bitmap.c:145-153 | `word ^ mask` flips just that bit |
| Bitmap.Bitmap.CreateInBuf | src/lib/kernel/bitmap.c:78-87 | a buffer of at least `bitmap_buf_size` bytes yields a bitmap of bit_cnt bits, all false |
| Bitmap.Bitmap.Size | src/lib/kernel/bitmap.c:105 | the number of bits |
| Bitmap.Bitmap.Test | src/lib/kernel/bitmap.c:157-161 | the value of bit idx |
| Bitmap.Bitmap.Mark | src/lib/kernel/bitmap.c:121-129 | the word gets `\| mask`; the bit becomes true and no other bit changes |
| Bitmap.Bitmap.Reset | src/lib/kernel/bitmap.c:132-140 | the word gets `& ~mask`; the bit becomes false and no other bit changes |
| Bitmap.Bitmap.Flip | src/lib/kernel/bitmap.c:145-153 | the word gets `^ mask`; the bit is inverted and no other bit changes |
| Bitmap.Bitmap.Set | src/lib/kernel/bitmap.c:110-118 | bit idx takes the value and no other bit changes |
| Bitmap.Bitmap.SetMultiple | src/lib/kernel/bitmap.c:173-181 | the range takes the value and the rest is unchanged |
| Bitmap.Bitmap.SetAll | src/lib/kernel/bitmap.c:166-170 | every bit takes the value |
| Bitmap.Bitmap.Count | src/lib/kernel/bitmap.c:185-196 | the number of bits in the range equal to the value |
| Bitmap.Bitmap.Contains | src/lib/kernel/bitmap.c:201-212 | true iff some bit in the range equals the value |
| Bitmap.Bitmap.Any | src/lib/kernel/bitmap.c:216 | true iff some bit in the range is set |
| Bitmap.Bitmap.None | src/lib/kernel/bitmap.c:220 | true iff no bit in the range is set |
| Bitmap.Bitmap.All | src/lib/kernel/bitmap.c:224 | true iff every bit in the range is set |
| Bitmap.Bitmap.Scan | src/lib/kernel/bitmap.c:232-253 | the first start of a run of cnt bits equal to the value, at or after `start`, or BITMAP_ERROR |
| Bitmap.Bitmap.ScanAndFlip | src/lib/kernel/bitmap.c:262-272 | as `Scan`; on a hit the run is flipped, on a miss nothing changes |
| Palloc.PagesFor | src/threads/palloc.c:138 | `DIV_ROUND_UP(bytes, PGSIZE)`: the fewest pages that hold the bytes |
| Palloc.InitPool | src/threads/palloc.c:134-148 | panics iff the bitmap needs more pages than the pool has; otherwise the bitmap pages hold the bitmap, they and the usable pages make up the pool, and the usable pages follow the bitmap |
| Palloc.BufSizeMono | src/lib/kernel/bitmap.c:91 | a bigger bitmap never needs a smaller buffer |
| Palloc.UserPages | src/threads/palloc.c:52-54 | the user pool is min(free/2, user_page_limit) |
| Palloc.SplitCovers | src/threads/palloc.c:53-55 | the kernel and user pages cover the free pages exactly, and the user pool is never larger than the kernel pool |
| Palloc.NoUserPagesPanics | src/threads/palloc.c:52-59 | with a user page limit of 0 the user pool gets no pages, and `init_pool` panics on it for want of a page for its used map |
| Palloc.PoolsDisjoint | src/threads/palloc.c:48-60 | no page belongs to both pools |
| Palloc.AllocTakesFreeRun | src/threads/palloc.c:70-94 | allocation takes the first free run of page_cnt pages, marks exactly it used, and leaves every other page alone |
| Palloc.AllocFreeRestores | src/threads/palloc.c:70-126 | freeing the pages just allocated restores the pool's map |
| Palloc.AllocCounts | src/threads/palloc.c:70-94 | a successful allocation raises the number of used pages by page_cnt |
| Palloc.Pool.Init | src/threads/palloc.c:134-148 | the pool's base and size are those of `InitPool`, and every page is free |
| Palloc.Pool.PageFromPool | src/threads/palloc.c:152-158 | true iff the page lies in [base, base + size) |
| Palloc.Pool.GetMultiple | src/threads/palloc.c:70-94 | page_cnt 0 gives NULL; otherwise the map is scanned and flipped, giving base + idx, or NULL or a panic on a miss |
| Palloc.Pool.FreeMultiple | src/threads/palloc.c:118-125 | the freed run becomes free and the rest of the map is unchanged |
| Palloc.PageAllocator.Init | src/threads/palloc.c:48-60 | the kernel pool is `InitPool` of kernel_pages pages at the start of free memory, the user pool is `InitPool` of the user pages right after it, kernel and user pages add up to the free pages, and both pools start empty |
| Palloc.PageAllocator.GetMultiple | src/threads/palloc.c:70-94 | PAL_USER picks the user pool, the other pool is untouched, and the chosen pool behaves as `Pool.GetMultiple` |
| Palloc.PageAllocator.GetPage | src/threads/palloc.c:103 | a one-page `GetMultiple` |
| Palloc.PageAllocator.FreeMultiple | src/threads/palloc.c:106-126 | NULL or 0 pages changes nothing; otherwise the pages' own pool frees the run and the other pool is untouched |
| Palloc.PageAllocator.FreePage | src/threads/palloc.c:130 | a one-page `FreeMultiple` |
| Heaps.HeapElem.constructor | src/lib/kernel/heap.h:6-8 | an element with the given key |
| Heaps.RootExtremal | src/lib/kernel/heap.c:53-56 | in a heap-ordered array no element comes before the root |
| Heaps.SiftUpStep | src/lib/kernel/heap.c:12-18 | swapping an element with its parent when it comes first moves the only violation up to the parent |
| Heaps.SiftUpDone | src/lib/kernel/heap.c:12-18 | at the root, or once the parent comes first, the array is heap-ordered |
| Heaps.PushRun | src/lib/kernel/heap.c:32-37 | appending to a heap leaves only the new slot out of order |
| Heaps.SmallestChoice | src/lib/kernel/heap.c:20-26 | the index `heapify_down` picks is the parent itself (then the heap is ordered) or the child that comes first |
| Heaps.SiftDownStep | src/lib/kernel/heap.c:26-29 | swapping with that child moves the only violation down to it |
| Heaps.RootFirst | src/lib/kernel/heap.c:53-56 | in a non-empty heap with no NULL slot, no element comes before the root |
| Heaps.PopRun | src/lib/kernel/heap.c:45-47 | moving the last element to the root leaves only the root out of order and keeps the other elements |
| Heaps.Heap.Init | src/lib/kernel/heap.c:61-65 | an empty heap of the given capacity and order |
| Heaps.Heap.Swap | src/lib/kernel/heap.c:6-10 | the two slots are exchanged; the multiset and the slots past the heap are kept |
| Heaps.Heap.HeapifyUp | src/lib/kernel/heap.c:12-18 | restores heap order with the same elements |
| Heaps.Heap.HeapifyDown | src/lib/kernel/heap.c:20-30 | restores heap order with the same elements |
| Heaps.Heap.PushBack | src/lib/kernel/heap.c:32-37 | panics iff the heap is full (then nothing changes); otherwise one element more, the same elements plus the new one, and heap order kept |
| Heaps.Heap.PopFront | src/lib/kernel/heap.c:39-51 | NULL on an empty heap; otherwise returns the old root, which no element precedes, and leaves the other elements in heap order with the freed slot NULL |
| Heaps.Heap.ReplaceRootWithLast | src/lib/kernel/heap.c:45-48 | one element fewer: all but the old root, in heap order |
| Heaps.Heap.Front | src/lib/kernel/heap.c:53-56 | NULL on an empty heap; otherwise the root, which no element precedes |
| Console.Key | src/threads/init.c:152-162 | DEL removes the last character if any; any other key is appended |
| Console.Edit | src/threads/init.c:148-167 | the line never exceeds `size`, and at least one keystroke is consumed while any remain |
| Console.EditPlain | src/threads/init.c:148-167 | plain keys followed by CR give exactly those keys, consuming the CR |
| Console.DeleteOnEmpty | src/threads/init.c:152-158 | DEL on an empty line is ignored |
| Console.TypeThenDelete | src/threads/init.c:152-162 | a key followed by DEL cancels out |
| Console.Keystroke | src/threads/init.c:152-162 | the buffer holds `Key` of the old line |
| Console.Readline | src/threads/init.c:148-167 | the returned length and buffer are those of `Edit`, and the line is NUL-terminated |
| Console.WordLen | src/threads/init.c:172 | the length of the leading token: no separator inside, and a separator or the end after it |
| Console.WordsSkipSeparators | src/threads/init.c:169-176 | leading separators produce no token |
| Console.WordFirst | src/threads/init.c:169-176 | a word followed by a separator is the first token |
| Console.WordsOfUnwords | src/threads/init.c:169-176 | tokenizing words joined by spaces gives the words back |
| Console.WordCountBound | src/threads/init.c:169-176 | a line of n characters has at most (n+1)/2 tokens |
| Console.WordsAreWords | src/threads/init.c:169-176 | every token is non-empty and free of separators |
| Console.Tokenize | src/threads/init.c:169-176 | argv is the token list of the line, and argc is its length |
| Console.CString | src/threads/init.c:183-185 | the string up to the first NUL, or all of it |
| Console.ReadCommand | src/threads/init.c:179-191 | corrected: at most 127 characters are read, and the tokens fit in an argv of 65 slots of its own |
| Console.InteractiveReadOverflows | src/threads/init.c:182-183 | as written: 128 keys and CR fill all 128 bytes, so the terminating NUL goes to buf[128] |
| Console.InteractiveArgvOverflows | src/threads/init.c:179-189 | as written: 64 one-letter words make a 127-character line that tokenizes to 64 tokens; behind two options on the shared argv the last lands at argv[65], past its 65 slots |
| CommandLine.StrLen | src/threads/init.c:255 | `strnlen`: no NUL in the counted characters, and a NUL or the end after them |
| CommandLine.ArgsFrom | src/threads/init.c:250-256 | as written: argc arguments read from the area, or overflow when p passes its end |
| CommandLine.CommandLine | src/threads/init.c:247-257 | corrected: argc arguments, fewer than the 65 argv slots, or overflow |
| CommandLine.ReadCommandLine | src/threads/init.c:247-269 | the loop computes `CommandLine` |
| CommandLine.ArgsFromPack | src/threads/init.c:250-256 | NUL-terminated arguments laid out in the area are read back exactly |
| CommandLine.CommandLineOfPack | src/threads/init.c:247-257 | a loader area holding fewer than 65 packed arguments yields them |
| CommandLine.ArgsFromIsPacked | src/threads/init.c:250-256 | whatever is read back is the area's own NUL-terminated layout |
| CommandLine.EmptyArgumentsOverflowArgv | src/threads/init.c:248-257 | 128 NULs with argc 65 are accepted by the loop, which then writes argv[65], past the array |
| CommandLine.EqualsAt | src/threads/init.c:276 | the position of the first `=`, or the end |
| CommandLine.SplitOptionJoins | src/threads/init.c:276-277 | name `=` value rejoins to the argument, and the name has no `=` |
| CommandLine.Apply | src/threads/init.c:279-312 | an option is accepted iff it is known in this build; `-mlfqs` is what sets MLFQS |
| CommandLine.Options | src/threads/init.c:273-313 | parsing stops at the first non-option, which it returns; all skipped arguments are options; an unknown option panics |
| CommandLine.MlfqsIffNamed | src/threads/init.c:302-303 | MLFQS is on after parsing iff it was on before or some parsed option is `-mlfqs` |
| CommandLine.ParseOptions | src/threads/init.c:273-326 | the loop computes `Options` |
| CommandLine.Table | src/threads/init.c:365-377 | the table of the build; every action's argument count includes its own name |
| CommandLine.Lookup | src/threads/init.c:416-422 | a found action is in the table with that name; a miss means no entry has it |
| CommandLine.FindAction | src/threads/init.c:416-422 | the loop computes `Lookup` |
| CommandLine.FinishedCoversArgv | src/threads/init.c:411-439 | a completed run splits argv exactly into well-formed calls |
| CommandLine.RunActions | src/threads/init.c:411-439 | the loop computes `Actions` |
| CommandLine.Interact | src/threads/init.c:379-407 | an action is invoked iff it is known and argc matches exactly; then it gets argv |
| CommandLine.RunInteractive | src/threads/init.c:379-407 | the loop computes `Interact` |
| CommandLine.InteractiveAgreesWithBatch | src/threads/init.c:379-439 | a command the console accepts runs as the same single call in batch mode |
| CommandLine.BatchAcceptsMoreThanInteractive | src/threads/init.c:396-429 | `whoami whoami` is refused by the console (argc 2, expected 1) but runs in batch mode |
| SynchSpec.FirstMax | src/threads/synch.c:105-106 | `list_max` with a strict less-than: the first maximal element |
| SynchSpec.Chosen | src/threads/synch.c:120-129 | the front under MLFQS; otherwise the first waiter of maximal priority |
| SynchSpec.Woken | src/threads/synch.c:120-129 | the woken thread is a waiter no other waiter outranks, or the front under MLFQS |
| SynchSpec.UpThreads | src/threads/synch.c:114-133 | waking adds or removes no thread |
| SynchSpec.UpTakesWoken | src/threads/synch.c:114-133 | the value rises by one; the woken thread, and only it, leaves the waiter list |
| SynchSpec.MaxWaiterPriority | src/threads/synch.c:353-362 | -1 or the priority of some waiter, and no waiter is higher |
| SynchSpec.NextPriority | src/threads/synch.c:364-375 | at least -1 and at least every waiter's priority on every held lock |
| SynchSpec.Without | src/threads/synch.c:280-287 | the held list without the released lock |
| SynchSpec.NextPriorityAttained | src/threads/synch.c:364-375 | the result is -1 or the priority of an actual waiter on a held lock |
| SynchSpec.NextPriorityNone | src/threads/synch.c:364-392 | -1 iff no held lock has a waiter |
| SynchSpec.ReleasedPriority | src/threads/synch.c:386-393 | the holder gets back its base priority and loses `donated` iff no held lock has waiters; otherwise it takes the top waiter's priority; nothing else changes |
| SynchSpec.RaiseShrinks | src/threads/synch.c:236-238 | each raise leaves one thread fewer below the donated priority, so the walk ends |
| SynchSpec.Donate | src/threads/synch.c:232-262 | corrected: only threads below p are raised to p and marked donated, the holder first; a holder at or above p stops the walk |
| SynchSpec.DonateAsWritten | src/threads/synch.c:232-262 | as written: where it does not crash, it is `Donate` |
| SynchSpec.DonateOnlyRaises | src/threads/synch.c:236-238 | donation never lowers a priority, and keeps base priority, blocking and held locks |
| SynchSpec.DonateAlongChain | src/threads/synch.c:232-262 | every thread along a chain of waits-for-holder below p ends at p |
| SynchInvariant.NewSemaCoherent | src/threads/synch.c:50-55 | `sema_init` keeps the invariant |
| SynchInvariant.DecCoherent | src/threads/synch.c:73-90 | decrementing a positive semaphore keeps the invariant |
| SynchInvariant.BlockCoherent | src/threads/synch.c:69-71 | queuing the running thread on a semaphore and blocking it keeps the invariant |
| SynchInvariant.UpCoherent | src/threads/synch.c:114-133 | `__sema_up` on a semaphore used on its own keeps the invariant |
| SynchInvariant.NewLockCoherent | src/threads/synch.c:204-209 | `lock_init` keeps the invariant |
| SynchInvariant.TakeCoherent | src/threads/synch.c:313-315 | taking a free lock keeps the invariant |
| SynchInvariant.DonateCoherent | src/threads/synch.c:306-310 | donating a valid priority keeps the invariant |
| SynchInvariant.HeldKnownAfterRelease | src/threads/synch.c:387-388 | every lock the holder still holds, and its waiters, are known |
| SynchInvariant.NextPriorityInRange | src/threads/synch.c:364-375 | `next_priority` is -1 or a valid priority |
| SynchInvariant.DemotedThreadsOk | src/threads/synch.c:387-394 | the thread records stay consistent after the holder's demotion |
| SynchInvariant.DemotedSemasLocksOk | src/threads/synch.c:387-394 | semaphores and the other locks stay consistent after the demotion |
| SynchInvariant.FreedUpCoherent | src/threads/synch.c:394-395 | upping a freed lock's semaphore restores the invariant |
| SynchInvariant.ReleaseCoherent | src/threads/synch.c:382-402 | the whole of `lock_release` keeps the invariant |
| SynchInvariant.ReleaseKeepsRunning | src/threads/synch.c:395 | releasing never blocks the releasing thread |
| SynchInvariant.NewCondCoherent | src/threads/synch.c:424-428 | `cond_init` keeps the invariant |
| SynchInvariant.EnqueueCoherent | src/threads/synch.c:458-461 | queuing a fresh `semaphore_elem` holding the waiter keeps the invariant |
| SynchInvariant.SleepersKnown | src/threads/synch.c:485-495 | with `cond_wait` as one step, every `semaphore_elem` on a condition has its one waiting thread, so `condvar_less_func`'s asserts hold; the source's window breaks this (`CondWaitWindowBreaksSignal`) |
| SynchInvariant.DequeueCoherent | src/threads/synch.c:497-504 | removing an element from a condition's list keeps the invariant and leaves it used on its own |
| SynchInvariant.SleepingOf | src/threads/synch.c:458-461 | every element on a condition's list has value 0 and one waiter, which is blocked on it |
| SynchInvariant.BroadcastStep | src/threads/synch.c:543-545 | each signal of the broadcast ups one more element and wakes its one sleeper; elements still listed, other semaphores and other threads are unchanged |
| SynchInvariant.BroadcastDone | src/threads/synch.c:539-546 | once the list is empty, every element that was on it is up-ed with no waiter, every thread that slept in one is awake, and nothing else has changed |
| SynchInvariant.DonateThroughConditionCrashes | src/threads/synch.c:239-248 | a reachable state where the holder waits on a condition's semaphore: the walk as written crashes, while `Donate` raises just the holder |
| SynchInvariant.WindowStartCoherent | src/threads/synch.c:450-457 | the state in which thread 2 calls `cond_wait` (holding a lock another thread waits for, with one sleeper on the condition) satisfies the invariant |
| SynchInvariant.CondWaitWindowBreaksSignal | src/threads/synch.c:458-461 | as written: after the push and the release, the higher-priority waiter for the lock is awake and the lock free while the caller is not yet blocked, and the condition's list holds an element without a waiter |
| SynchInvariant.ReleaseBelowBase | src/threads/synch.c:386-393 | a reachable state where releasing a lock drops the holder below its base priority |
| Synch.Sync.SemaInit | src/threads/synch.c:50-55 | adds a semaphore with the value and no waiters |
| Synch.Sync.SemaDown | src/threads/synch.c:64-75 | proceeds iff the value is positive, then decrements it; otherwise queues the caller at the back and blocks it |
| Synch.Sync.SemaTryDown | src/threads/synch.c:82-97 | succeeds iff the value is positive, then decrements it; otherwise changes nothing |
| Synch.Sync.Up | src/threads/synch.c:114-133 | the semaphore and threads become `UpSema` and `UpThreads` |
| Synch.Sync.SemaUp | src/threads/synch.c:144-154 | the same, keeping the invariant |
| Synch.Sync.PriorityDonate | src/threads/synch.c:254-262 | the threads become `Donate(h, p)` and nothing else changes |
| Synch.Sync.MaxPriorityInWaiters | src/threads/synch.c:353-362 | the loop computes `MaxWaiterPriority` |
| Synch.Sync.NextPriorityOf | src/threads/synch.c:364-375 | the loop computes `NextPriority` |
| Synch.Sync.LockInit | src/threads/synch.c:204-209 | a free lock whose semaphore has value 1 |
| Synch.Sync.TakeLock | src/threads/synch.c:313-315 | acquired iff the lock was free: then the caller holds it and lists it; otherwise the caller waits on its semaphore |
| Synch.Sync.LockAcquire | src/threads/synch.c:297-322 | as `TakeLock`, after donating the caller's priority along the holder chain when the holder is lower (strict mode) |
| Synch.Sync.LockTryAcquire | src/threads/synch.c:330-350 | succeeds iff the lock was free, taking it; otherwise nothing changes |
| Synch.Sync.ReleasePriority | src/threads/synch.c:386-388 | `next_priority` of the remaining locks in strict mode, -1 under MLFQS, always -1 or a valid priority |
| Synch.Sync.LockRelease | src/threads/synch.c:382-402 | the lock becomes free, the holder is demoted as `Released`, and its semaphore is up-ed; the releaser keeps running |
| Synch.Sync.CondInit | src/threads/synch.c:424-428 | a condition with no waiters |
| Synch.Sync.CondWait | src/threads/synch.c:450-461 | in one step: a fresh `semaphore_elem` holding the caller joins the back of the list, the lock is released, and the caller blocks on that element |
| Synch.Sync.CondSignal | src/threads/synch.c:513-531 | nothing happens without waiters; otherwise the chosen element leaves the list and is up-ed, ending with value 1 and no waiter |
| Synch.Sync.SignalNext | src/threads/synch.c:543-545 | one pass of the loop: the list gets shorter, only it changes among the conditions, and the state stays part way through the broadcast |
| Synch.Sync.CondBroadcast | src/threads/synch.c:539-546 | the list ends empty; every element that was on it has value 1 and no waiter, every thread that slept in one is awake, and no other semaphore, thread, lock or condition changes |

## Left out

- I/O is left out: `printf`, `putchar`, the echo of `readline`, and the "Kernel command line:" print of `read_command_line`. Keystrokes are a given sequence, and `input_getc`'s wait is the requirement that a CR comes.
- Console.Readline: the sequence must contain a CR, because `input_getc` blocking forever is not modelled.
- The actions themselves are outside `init.c`'s parsing and are passed in as a status function: `run_task` (the test runner and `process_execute`), `act_exit` and the filesystem utilities.
- `atoi` and the random seed of `-rs`/`-ul` are recorded as texts. `random_init(rtc_get_time())` and `shutdown_configure` become settings, because `rtc` and `shutdown` are not part of this model.
- `usage()` is left out: it prints and powers off, and is modelled as the `Usage` outcome.
- The rest of `init.c` is not part of this model: `main`, paging setup and the bss clear.
- The machine encoding of bitmap words is left out. A word is 32 bits as a sequence, with masks built from the same numbers, rather than an `unsigned long`.
- `bitmap_create` and `bitmap_destroy` are left out (they use `malloc`), as are `bitmap_dump`, `bitmap_file_size`, `bitmap_read` and `bitmap_write` (files and the hex dump). `bitmap_create_in_buf` is modelled with a fresh array.
- The bitmap's ASSERTs on indices and ranges become preconditions, as do the page allocator's and `PageFromPool`'s.
- Fixed1714.Div: `requires y.raw != 0` excludes the zero divisor, on which the C division traps instead of returning.
- Fixed1714.DivInt: `requires n != 0` excludes the zero divisor, on which the C division traps instead of returning.
- Formula.FormulaRecentCpu: the requires excludes a load average of raw -8192 (-1/2), where the divisor `2*load_avg + 1` is zero and the C division traps instead of returning.
- Palloc.Pool.Init: the requires `InitPool(start, pageCnt).Some?` excludes a pool too small for its own used map, where `init_pool` panics ("Not enough memory ... for bitmap"); `InitPool` is `None` on exactly those inputs.
- Palloc.PageAllocator.Init: the same requires, on both pools, excludes the inputs on which `palloc_init` panics, for instance a user page limit of 0 (`-ul=0`), which leaves the user pool no page for its used map (`NoUserPagesPanics`).
- Palloc.PageAllocator.FreeMultiple: a page in neither pool, where the source reaches `NOT_REACHED()`, is excluded by the requires.
- Palloc.Pool.FreeMultiple: the source's `ASSERT(bitmap_all(...))` is a precondition and is not called.
- Page contents are left out: the `PAL_ZERO` memset, the `0xcc` fill on free, and the `pg_ofs` alignment assert. Pages are numbers.
- The pool lock is left out: each call is atomic.
- `palloc_init` takes `init_ram_pages` as a parameter, and kernel virtual addresses are page numbers.
- Heaps.Heap.PushBack: the PANIC is returned as a flag with the heap unchanged.
- The heap stores raw element pointers and does not check element ownership.
- Interrupts are left out: enabling and disabling them, `intr_context` and the `ASSERT(!intr_context())` checks. Each primitive is one atomic method. `sema_up_intr` is the same as `Up`.
- Blocking and scheduling are left out: `thread_block`, `thread_unblock` and `thread_yield`. A blocked thread is marked on the waiter list, and the method it calls next resumes it.
- Spawn and Switch stand in for thread creation and the scheduler, which are not part of this model.
- The `while` of `sema_down` is a single test. A woken thread calls `SemaDown` again, which then succeeds.
- In `lock_acquire`, the window between `sema_down` returning and `lock->holder` being set is atomic in the model.
- SleepersKnown: proved for the model's one-step `cond_wait` only. In the source an element is on the list without a waiter between `list_push_back` and `sema_down`, and a signal in that window fails the asserts (see Findings).
- Synch.Sync.CondWait: the push, the release and the block are one step. The yield of `sema_up` inside `lock_release`, between the push and the block, is not modelled.
- `cond_wait` stops when the caller is blocked. Its resumption is `SemaDown` on its own element followed by `LockAcquire`.
- `contains_holder` and the buffer list of `__update_priority_r` are left out. The walk terminates because it only raises strictly lower priorities (`RaiseShrinks`), and the buffer never changes the result there.
- The MLFQS branches are modelled as written (the "TODO: mlfqs" paths): no donation, waking the front waiter, and no lock list. MLFQS priority recomputation lives in the scheduler, which is not part of this model.
- The semaphore value is an unbounded natural, so the `unsigned` wrap of `sema->value++` is not modelled.
- `dump_sema_waiters`, `dump_cond_waiters` and `sema_self_test` are left out: they print or are tests.
- `lock_held_by_current_thread` is the predicate `HeldByCurrent`. Its `ASSERT`s and `thread_pop_lock`'s `contains_lock` assert become preconditions.
- Synch.Sync.SemaDown, Synch.Sync.SemaUp and Synch.Sync.SemaTryDown: callers must use the semaphore on its own, not one embedded in a lock or in a condition's list. The source does not forbid this, but doing so breaks the lock and condition invariants.

## Findings

| source | as written | input that shows it | evidently intended | confidence | as-written member | corrected member |
|---|---|---|---|---|---|---|
| src/lib/fixed1714.c:13-20 | `to_int_round` subtracts one half and then shifts right, which floors, on negative values | `fixed1714(-1, 1)` rounds to -2; every negative integer n comes back as n - 1 | round to the nearest integer, halves away from zero | high (not executed) | Fixed1714.ToIntRoundOfNegative | Fixed1714.ToIntNearestOfInt |
| src/threads/synch.c:239-248 | the donation walk treats any semaphore a blocked holder waits on as part of a lock, and follows that lock's holder | holder 1 holds lock 0 and waits in `cond_wait`'s `semaphore_elem`; thread 2 (priority 40) acquires lock 0, and `container_of` yields a non-lock | stop the walk where the holder is not waiting on a lock | high (not executed) | SynchInvariant.DonateThroughConditionCrashes | SynchSpec.DonateAlongChain |
| src/threads/init.c:182-183 | `interactive` passes `sizeof buf` (128) to `readline`, which then writes `buf[len] = '\0'` with len up to 128 | 128 characters followed by CR | pass `sizeof buf - 1` | high (not executed) | Console.InteractiveReadOverflows | Console.ReadCommand |
| src/threads/init.c:248-257 | `argv` has 65 slots, but only the end of the loader area limits argc, and `argv[argc] = NULL` follows | loader area of 128 NULs with argc = 65 | reject argc >= 65 | medium (not executed) | CommandLine.EmptyArgumentsOverflowArgv | CommandLine.ReadCommandLine |
| src/threads/synch.c:458-461 | `cond_wait` pushes its element (value 0, no waiter) before `lock_release`, whose `sema_up` yields, and blocks on the element only afterwards | thread 2 (base 20, donated 40) holds lock 0 that thread 3 (40) waits for, while thread 1 sleeps on condition 0; thread 2 calls `cond_wait`, the release yields to thread 3, which takes lock 0 and calls `cond_signal` | no element on the list without its waiter when another thread can signal | medium (not executed) | SynchInvariant.CondWaitWindowBreaksSignal | Synch.Sync.CondWait |
| src/threads/init.c:179-189 | `interactive` tokenizes into the argv `parse_options` returned, which points past the options into the 65-slot argv | two options on the kernel command line, then a console line of 64 one-letter words | tokenize into an argv of 65 slots of its own | medium (not executed) | Console.InteractiveArgvOverflows | Console.ReadCommand |
