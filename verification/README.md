# Verified models of a Lua runtime library's core

The repository is a C library for Lua: an HTTP server with routes and chunked bodies, threads with
numbered locks, hash functions, sorting, and the small containers these rest on. This project models
its hardest parts in Dafny and proves what they keep and what they compute.

| File | Models |
|---|---|
| `Larray.dfy` | the open-addressing table of `src/types/larray.c`: setter and regrowth call each other |
| `HashSlots.dfy`, `HashMap.dfy` | the string map of `src/types/map.c`: the same, with removal |
| `Parray.dfy`, `Glob.dfy` | the association list of `src/types/parray.c` and its wildcard match |
| `Pattern.dfy`, `RouteMatch.dfy` | what a route pattern means, and the one-pass matcher of `src/net/util.c` |
| `HeaderEnd.dfy`, `ParseHeader.dfy`, `HeaderLines.dfy` | reading and parsing a request header |
| `ChunkedBody.dfy` | the chunked decoder of `src/net.c`, fed one read at a time |
| `DeepCopy.dfy`, `DeepCopyShape.dfy` | copying a cyclic table graph into another Lua state |
| `ThreadLocks.dfy`, `ThreadLocksRuns.dfy`, `ThreadLocksJam.dfy` | the numbered lock protocol, as interleaved steps of any number of threads; when it stops |
| `BlockHash.dfy` | buffering, padding and finishing of SHA-0, SHA-1 and MD5 |
| `Gf2.dfy`, `Crc.dfy` | the three CRCs, against division of polynomials over GF(2) |
| `Sorting.dfy` and one file a sort | quick, merge, heap, bubble, shell and counting sort, against one reference |
| `Option.dfy`, `Sizes.dfy`, `Reads.dfy` | a pointer that may be NULL; sizes of finite sets and maps; a stream and its reads |

Each imperative routine is a method over the arrays, fields and loops of the C code, proved against a
specification function; the lemmas then prove what the code is for about that function.

Where the code falls short of what one would expect of it, the exact condition is proved:

- `recv_header` misses a delimiter that starts in the first four bytes when a read boundary cuts it there, and no
  other one (`HeaderEnd.RecvHeader`).
- `sha01_update` and `md5_update` take in their input, and read nothing beyond it, exactly when the buffer was empty or
  the input does not go beyond one block; otherwise the offset, which advances by a whole block, passes over as many
  bytes as the buffer held and reads as many after the input (`BlockHash.ReadsWithinInput`).
- `md5_final` stores 32 bits of the length, which is the padding of RFC 1321 exactly for messages whose bit length
  fits in them (`BlockHash.Md5FieldExact`).
- The write-back after a lock wait gives an id's mutex to another id exactly when the table slot has changed hands in
  between, and a run does that (`ThreadLocks.WriteBackExact`, `ThreadLocksRuns.GrowthInWait`).
- The holder of `thread_lock_lock` cannot go on exactly when it waits for `thread_priority_lock` and another thread has
  that (`ThreadLocksJam.RunsBlockedExactlyInJams`). The locks jam exactly when a thread looks up an id in the table
  while a thread has `thread_priority_lock` (`ThreadLocks.JamBegins`), and for good (`ThreadLocks.JammedForever`).
- `map_set` matches on the hash alone, so it behaves as a plain map exactly when no other key present has the same
  hash (`HashSlots.SetIsPlain`). It leaves one slot a hash exactly when it does not stop at a removed slot short of
  the key's own (`HashMap.Set`); otherwise removing the key brings the old value back, and growing does when the old
  slot comes later in slot order (`HashMap.OldValueComesBack`).
- `luaI_deepcopy` merges keys exactly when they are numbers that a double cannot tell apart
  (`DeepCopyShape.KeysMerge`), and never keeps a function or userdata shared (`DeepCopyShape.CopyKeepsShape`).
- `match_param` runs off a pattern exactly when an unclosed brace can be reached with a character of the request left
  (`RouteMatch.MatchParam`).
- `fmatch` decides every pattern exactly for subjects without a `*` (`Glob.ExactWithoutStars`).

## Model

| member | source | states |
|---|---|---|
| Larray.LArray.constructor | src/types/larray.c:11-18 | a new table is empty and keeps the table invariant |
| Larray.LArray.Geti | src/types/larray.c:57-68 | the index is the one slot of the key, or -1 exactly when the key was never set; the lookup loop ends in every table, also for home slot 0 where its bound wraps |
| Larray.LArray.Get | src/types/larray.c:70-74 | the last value set for the key, or NULL, across any regrowths |
| Larray.LArray.Probe | src/types/larray.c:40-46 | the loop finds the slot where the key belongs exactly when one of the first twelve slots is free or holds it; it never fails in a table larger than every key |
| Larray.LArray.Write | src/types/larray.c:48-51 | writing where the key belongs keeps chains unbroken and keys unique, and updates the plain map at that key only |
| Larray.Set | src/types/larray.c:32-55 | the table stands for the old map with the key set; it is the same table exactly when it has room and the probe stays within its cap, and terminates through any depth of mutual recursion |
| Larray.Expand | src/types/larray.c:20-30 | the larger table holds the same map, however often it grows itself while it is filled |
| Larray.GrownTwice | src/types/larray.c:22-22 | growth by four composes: every table reached is the first one quadrupled some number of times |
| Larray.FreeSlot | src/types/larray.c:35-38 | a free slot is left in every table reached |
| Larray.ProbeRun | src/types/larray.c:42-46 | a probe run ends before it has come round, does not pass its key, and is empty once the table is larger than every key |
| Larray.StoppedEarly | src/types/larray.c:60 | the slot the lookup leaves out cannot be the key's |
| Larray.WriteKeepsTable | src/types/larray.c:48-51 | the table invariant survives the write |
| Larray.HomeIsRemainder | src/types/larray.c:40 | the home slot is the remainder of the key by the size |
| HashMap.HashMap.Geti | src/types/map.c:74-86 | the search finds the first slot in probing order that holds the key, in every table; it stops at a NULL key only, and neither that nor its wrapping bound loses anything |
| HashMap.HashMap.Get | src/types/map.c:88-92 | the value in that slot; with one slot a hash, the plain map's answer |
| HashMap.HashMap.Remove | src/types/map.c:94-101 | in every table removal hides no other key; with one slot a hash it takes the key out of the plain map |
| HashMap.HashMap.Probe | src/types/map.c:56-63 | the loop stops within its cap exactly when one of the first twelve slots is unused or has the hash; never fails in a table of 2^64 slots |
| HashMap.HashMap.Write | src/types/map.c:65-69 | the write keeps every table well formed, and one slot a hash exactly when there was one and it was not shadowed by a removed slot; other keys are looked up as before unless written over |
| HashMap.FindRoom | src/types/map.c:50-63 | the first part of the setter: grow until there is room and the probe stays within its cap |
| HashMap.Set | src/types/map.c:47-72 | in every table the key is then found with its value; the exact conditions for growing, for leaving one slot a hash, and for the plain map being the old one with the key set |
| HashMap.Expand | src/types/map.c:35-45 | the larger table has one slot a hash and no removed slots, and holds for each hash the last of its slots in slot order; the mutual recursion ends |
| HashSlots.NothingBeyond | src/types/map.c:79-79 | stopping at an empty slot loses nothing |
| HashSlots.FoundAtHome | src/types/map.c:78-78 | in a table of 2^64 slots the search is over after its first step |
| HashSlots.WriteSeen | src/types/map.c:56-69 | what each lookup sees after the write, in any table |
| HashSlots.WriteSingle | src/types/map.c:59-69 | the write leaves one slot a hash exactly when there was one and it is not short of it |
| HashSlots.GoneHidesNothing | src/types/map.c:94-101 | a removed slot hides no other key, in any table |
| HashSlots.LookupIsVisible | src/types/map.c:74-92 | with one slot a hash the lookups answer from a plain map |
| HashSlots.SetIsPlain | src/types/map.c:55-72 | setting is setting in a plain map exactly when no other key present has that hash |
| HashSlots.AloneMeans | src/types/map.c:59-59 | the condition of SetIsPlain, read off one slot, says that no other key present has that hash |
| HashSlots.RemoveIsPlain | src/types/map.c:94-101 | removing is removing from a plain map |
| HashMap.GrowthKeepsLast | src/types/map.c:35-45 | a table that has grown answers from the last slot of a hash in slot order |
| HashMap.OldValueComesBack | src/types/map.c:35-101 | after a shadowed set two slots hold the key and the new value is seen; removing it brings the old value back, and growing does exactly when the old slot comes later in slot order |
| HashMap.ShadowedExample | src/types/map.c:58-63 | a concrete table in which that happens |
| Parray.Parray.Set | src/types/parray.c:48-60 | the list is the old one with the key set in place or appended |
| Parray.Parray.Get | src/types/parray.c:69-76 | the value of the key or NULL |
| Parray.PutLookup | src/types/parray.c:48-76 | setting changes one key's value only, and keeps keys distinct and in order of first setting |
| Parray.StaleForgotten | src/types/parray.c:48-60 | a value set too early is forgotten when the same keys are all set again |
| Parray.LookupIsLastSet | src/types/parray.c:48-76 | a lookup gives the value set last |
| Glob.Fmatch | src/types/parray.c:137-158 | accepts only patterns that match, and all of them when the subject has no star; terminates although the first retry repeats a position |
| Glob.RunSound | src/types/parray.c:141-155 | from any state of the loop, what is accepted matches |
| Glob.RunComplete | src/types/parray.c:141-155 | without stars in the subject no match is lost by going back to the last star only |
| Glob.Refused | src/types/parray.c:142 | for every subject with a star, a pattern that matches and is refused |
| Glob.ExactWithoutStars | src/types/parray.c:137-158 | the loop decides all patterns exactly when the subject has no star |
| Pattern.FirstFinds | src/net/util.c:303-379 | the reference search returns the captures of the alignment with the shortest stars |
| Pattern.AlignmentFound | src/net/util.c:303-379 | the reference search misses no alignment |
| Pattern.SearchDecidesMatch | src/net/util.c:303-379 | matching means that the tokens of the pattern cover the request; the search decides that |
| RouteMatch.RunMonotone | src/net/util.c:324-339 | the end of a star-free block grows with its start |
| RouteMatch.NextStarCommits | src/net/util.c:324-339 | going back to the last star only loses no match |
| RouteMatch.UsedUp | src/net/util.c:376-378 | when the request is used up, an earlier retry would not help |
| RouteMatch.SettlesAgain | src/net/util.c:351-374 | captures left by failed tries are overwritten by the try that succeeds |
| RouteMatch.MatchParam | src/net/util.c:303-379 | for every pattern: it runs off the pattern exactly when an unclosed brace can be reached with a character left, and otherwise says whether the pattern matches; on a match each name holds its value from the earliest alignment |
| RouteMatch.TryRoute | src/net/util.c:393-401 | a route that matches is kept under its position with its own captures |
| RouteMatch.RouteMatch | src/net/util.c:381-408 | exactly the matching routes in registration order; under each position below the length `params` holds that route's captures |
| ParseHeader.ParseHeader | src/net/util.c:108-172 | the loops compute the reference parse, whose answer for every header text the rows of HeaderLines give |
| ParseHeader.FieldsParsed | src/net/util.c:143-170 | printed field lines give back every name and value, colons in values kept |
| ParseHeader.RequestLine | src/net/util.c:116-135 | the request line gives back its three words, or -2 when it is too long |
| ParseHeader.ParsePrinted | src/net/util.c:108-172 | parsing undoes printing exactly when the request line, CR included, is below the limit (sections 3 and 5 of RFC 9112) |
| ParseHeader.PrintedLookup | src/net/util.c:151-162 | each name holds its last value |
| HeaderLines.WordsOfSpaced | src/net/util.c:116-133 | words written with single spaces between them are the words read |
| HeaderLines.TextEndsAtNul | src/net/util.c:119-121 | what is stored of a word or value ends before its first NUL |
| HeaderLines.LineTooLong | src/net/util.c:125-129 | the first collected byte at offset 4096 or beyond ends the parse with -2 and the words before it stored |
| HeaderLines.LineUnended | src/net/util.c:134-138 | text without a line feed and with fewer than three spaces gives -1 with the finished words stored |
| HeaderLines.LineEnds | src/net/util.c:117-138 | a line feed ends the line, whose last word loses a byte; with fewer than three words the answer is -1 |
| HeaderLines.RequestWords | src/net/util.c:116-138 | any number of words and CRLF: with three or more the first three are stored and the fields follow, with fewer the words are stored and the answer is -1 |
| HeaderLines.FieldsInParts | src/net/util.c:140-167 | any field text without NUL is read as names up to a colon and values up to a line feed, without spaces in front |
| HeaderEnd.Memmem | src/net/util.c:24 | the first delimiter in the window |
| HeaderEnd.ReadResponseHeader | src/net.c:579-588 | stops at the first read that completes the header, at its first end, for every way of cutting the stream |
| HeaderEnd.RecvHeader | src/net/util.c:4-35 | the same, except exactly for delimiters cut within the first four bytes; it gives up after the read that reaches the size limit, and never goes on after it |
| HeaderEnd.CutAtTheStart | src/net/util.c:20-26 | a delimiter that is missed: reads of two bytes each |
| ChunkedBody.Decoder.Feed | src/net.c:89-120 | one call is one round of the reference decoder |
| ChunkedBody.NumeralRead | src/net.c:99-99 | every base-16 numeral is read as its number |
| ChunkedBody.DigitsAreNumeral | src/net.c:99-99 | every run of hexadecimal digits is the numeral of the number read |
| ChunkedBody.StrtollReads | src/net.c:99-99 | white space, a sign, 0x, digits and what follows them are read as C asks, up to the limits of a long long |
| ChunkedBody.RoundKeepsInBody | src/net.c:89-120 | one more read of any length leaves the decoder in step with the encoding, however it was cut before |
| ChunkedBody.InBodyDelivers | src/net.c:107-113 | a decoder in step has delivered the chunks whose data is complete |
| ChunkedBody.CutsDoNotMatter | src/net.c:89-120 | for every list of chunks, sizes written in base 16 in either case and with any leading zeros, and every cut, the content is the concatenated payload (section 7.1 of RFC 9112) |
| DeepCopy.DeepCopy | src/lua.c:169-288 | terminates on every closed graph; the result is what the value becomes: strings, booleans and the like unchanged, a number as a double makes it, an object with the same contents, or a table of the destination; old tables, memo entries and objects stay, every table newly memoized is complete, and the memo is injective |
| DeepCopy.FillPairs | src/lua.c:222-245 | the loop copies all pairs but the filtered ones while nested copies leave the half-filled table alone |
| DeepCopy.CopyLeaf | src/lua.c:180-269 | strings and other plain leaves are copied unchanged, numbers go through a double, functions and userdata become new objects with the same contents |
| DeepCopy.FillingNested | src/lua.c:222-245 | a nested copy adds only complete copies and does not touch the table being filled |
| DeepCopy.FillingEndsWithMeta | src/lua.c:281-286 | the metatable step completes the table |
| DeepCopyShape.FieldsCorrespond | src/lua.c:221-244 | under the copy of a key is the copy of the value last written there: the key's own value when no number keys merge |
| DeepCopyShape.KeysMerge | src/lua.c:179-182 | distinct keys of one table get one copy exactly when both are numbers that become the same number |
| DeepCopyShape.FieldsComeFromPairs | src/lua.c:221-244 | a copy has no field that the source has not |
| DeepCopyShape.FieldCount | src/lua.c:221-244 | as many fields as pairs that are not filtered, exactly when no number keys merge |
| DeepCopyShape.SmallNumbersKept | src/lua.c:180-182 | whole numbers up to 2^53 are their own doubles |
| DeepCopyShape.BigKeysMerge | src/lua.c:180-182 | the keys 2^53 and 2^53 + 1 merge |
| DeepCopyShape.CopyKeepsShape | src/lua.c:169-288 | each walk in the source has its copy, and two copies meet exactly when the ends have one copy: the same place for functions and userdata, one number after copying for numbers, the same value otherwise; sharing of tables and cycles are kept |
| DeepCopyShape.CopyHasNoOtherWalks | src/lua.c:169-288 | every walk in the copy is the copy of a walk in the source |
| DeepCopyShape.CopyHolds | src/lua.c:169-288 | each copied walk ends at what the end of the walk in the source becomes, under what its keys become |
| DeepCopyShape.StringFields | src/lua.c:226-233 | each copied table has the string fields of the source, but "_G" under SKIP__G and "__gc" under SKIP_GC, with what their values become |
| DeepCopyShape.SharedFunctionSplit | src/lua.c:246-259 | a function shared by two keys becomes two functions |
| DeepCopyShape.CopiesWhatIsReachable | src/lua.c:169-288 | exactly the reachable tables are copied |
| DeepCopyShape.MetatablesCopied | src/lua.c:281-286 | every table not below a metatable gets a copy of its metatable |
| DeepCopyShape.MetatablesLeftOut | src/lua.c:281-283 | a copied table to which the root does not lead by fields has no metatable; with SKIP_META none has |
| ThreadLocks.StepKeepsInv | src/thread.c:40-86 | every step of every thread keeps the invariant of the protocol |
| ThreadLocks.RunKeepsInv | src/thread.c:40-86 | so does every run from the start |
| ThreadLocks.MutualExclusion | src/thread.c:40-86 | at most one thread is inside an id, and at most one waits for any id's mutex |
| ThreadLocks.MutexForever | src/thread.c:49-54 | an id keeps its mutex for ever |
| ThreadLocks.WriteBackExact | src/thread.c:64-64 | the write-back is harmless exactly when the slot still belongs to the id |
| ThreadLocks.NoGrowthUndisturbed | src/thread.c:54-64 | runs without growth during a wait meet the condition of the results above |
| ThreadLocksJam.RunsBlockedExactlyInJams | src/thread.c:40-86 | in every undisturbed run thread_lock_lock is held by a thread that cannot step exactly when that thread waits for thread_priority_lock and another has it |
| ThreadLocksJam.HolderGoesOn | src/thread.c:40-86 | the holder of thread_lock_lock has a step unless it is jammed, whatever the table |
| ThreadLocksJam.HolderLetsGo | src/thread.c:40-86 | outside jams thread_lock_lock comes free within four steps of its holder |
| ThreadLocks.JamBegins | src/thread.c:49-57 | a step jams the locks exactly when it looks up an id in the table while some thread has thread_priority_lock |
| ThreadLocks.JammedForever | src/thread.c:57-63 | a jam is never left, and no call in it gets past its first line or returns |
| ThreadLocks.JammedRun | src/thread.c:57-63 | so in all of a run after it |
| ThreadLocksJam.JamReachable | src/thread.c:57-63 | a run into a jam with two threads, nobody inside any id |
| ThreadLocks.StuckForever | src/thread.c:57-63 | with three threads in a jam no thread gets a mutex any more either |
| ThreadLocksJam.DeadlockReachable | src/thread.c:57-63 | a run into a jam of three threads |
| ThreadLocksRuns.GrowthInWait | src/thread.c:54-64 | a run in which growth during a wait gives an id's mutex to another id |
| BlockHash.BlockHash.Update | src/hash/sha01.c:93-117 | for every call: the state is the fold of compression over the full blocks of the bytes taken in so far, the buffer the tail followed by zeros; which bytes are taken in, and where the bytes read end |
| BlockHash.BlockHash.Sha01Final | src/hash/sha01.c:119-143 | the digest of the message padded as in section 5.1.1 of FIPS 180-4, with the object left as it was |
| BlockHash.BlockHash.Md5Final | src/hash/md5.c:110-140 | the digest of the message padded as in section 3 of RFC 1321 while the bit length fits in 32 bits |
| BlockHash.BlockHash.Clone | src/hash/sha01.c:183-204 | an object in the same state with a buffer of its own |
| BlockHash.AbsorbMore | src/hash/sha01.c:93-117 | absorbing in two portions is absorbing at once |
| BlockHash.AbsorbsInOrder | src/hash/sha01.c:104-116 | the blocks are the 64-byte pieces of the message in order, the tail what comes after them |
| BlockHash.PaddingFits | src/hash/sha01.c:119-143 | padding leaves no partial block and adds less than a block and nine bytes |
| BlockHash.ShaPaddedIs | src/hash/sha01.c:125-136 | the padded message is the message, 0x80, the fewest zeros that complete a block with eight bytes more, and eight bytes whose value, most significant first, is the bit length modulo 2^64; and nothing else is |
| BlockHash.Md5PaddedIs | src/hash/md5.c:117-127 | the same with the bytes least significant first, as section 3 of RFC 1321 asks |
| BlockHash.ShortPaddedIs | src/hash/md5.c:126-127 | what md5_final pads to: the same with the bit length modulo 2^32 |
| BlockHash.Md5FieldExact | src/hash/md5.c:126-127 | the stored length is the required one exactly below 2^32 bits |
| BlockHash.Md5FieldTooShort | src/hash/md5.c:126-127 | a message of 2^29 bytes is padded wrongly |
| BlockHash.ReadsWithinInput | src/hash/sha01.c:93-117 | an update stays within its input, and takes in just that, exactly when the buffer was empty or the input does not go beyond one block |
| BlockHash.ReadsBeyond | src/hash/sha01.c:105-107 | one byte in the buffer and 64 more: one is passed over and one after them is read |
| Gf2.RemainderUnique | src/hash/crc.c:15-77 | quotient and remainder of a division are unique |
| Gf2.RegisterIffRemainder | src/hash/crc.c:15-77 | a bit-serial register holds the remainder, and only that |
| Gf2.AheadOfTime | src/hash/crc.c:41-50 | adding a byte at once and shifting is feeding it bit by bit |
| Gf2.ProcessAppend | src/hash/crc.c:15-77 | feeding composes over concatenation, so two updates are one |
| Gf2.BurstNoticed | src/hash/crc.c:15-77 | messages that differ only within a window of the register's width leave different registers |
| Gf2.EmptiedOnlyByOwnBits | src/hash/crc.c:41-50 | a register is emptied by its own bits and by no others |
| Crc.Crc8.Update | src/hash/crc.c:66-77 | the register has taken in the message bits, low bits first, and is the remainder of the message polynomial by generator 0x8c |
| Crc.Crc16.Update | src/hash/crc.c:41-50 | the byte-first loop leaves what the bit-serial form leaves: the remainder by generator 0xA001 |
| Crc.Crc32.Update | src/hash/crc.c:15-25 | the same bit-serial form and remainder for generator 0xEDB88320 |
| Crc.Generator8Is | src/hash/crc.c:73-73 | crc8 divides by x^8 + x^5 + x^4 + 1 |
| Crc.Generator16Is | src/hash/crc.c:46-46 | crc16 divides by x^16 + x^15 + x^2 + 1 |
| Crc.Generator32Is | src/hash/crc.c:21-21 | crc32 divides by the polynomial with exponents 32, 26, 23, 22, 16, 12, 11, 10, 8, 7, 5, 4, 2, 1, 0 |
| Crc.Complement | src/hash/crc.c:27-29 | the final step turns over every bit |
| Crc.EmptiedOnlyByChecksum | src/hash/crc.c:41-50 | two bytes appended to any message drive crc16 to 0 exactly when they are its register, low byte first |
| Sorting.SortedSorts | src/sort.c:20-235 | the reference sort is a non-increasing permutation |
| Sorting.SortedIsUnique | src/sort.c:20-235 | there is only one, so all sorts return the same |
| QuickSort.HoarePartition | src/sort.c:4-18 | the scans stay in low..high, the result is below high, and everything up to it is at least everything after |
| QuickSort.QuickSort | src/sort.c:20-26 | sorts its part and leaves the rest |
| QuickSort.SortAll | src/sort.c:41-41 | the reference result |
| MergeSort.Merge | src/sort.c:54-89 | the stable merge of both halves, the rest unchanged |
| MergeSort.MergedDescending | src/sort.c:68-85 | merging two non-increasing sequences gives one |
| MergeSort.MergeSort | src/sort.c:91-98 | sorts its part and leaves the rest |
| MergeSort.SortAll | src/sort.c:100-124 | the reference result |
| HeapSort.Heapify | src/sort.c:126-141 | restores the heap below one position and rearranges only the heap |
| HeapSort.RootLeast | src/sort.c:126-141 | the root is the least element |
| HeapSort.SortAll | src/sort.c:155-161 | the reference result |
| ShellSort.KeepsOrderAt | src/sort.c:186-193 | sorting with one interval keeps every order the array had |
| ShellSort.SortAll | src/sort.c:185-194 | the reference result |
| BubbleSort.PassSettles | src/sort.c:222-234 | everything from the last swap on is settled |
| BubbleSort.SortAll | src/sort.c:220-235 | the reference result, with passes that end at the last swap |
| CountingSort.PlaceStep | src/sort.c:278-281 | every placement is in range and in a slot of its own |
| CountingSort.SortAll | src/sort.c:252-281 | the reference result reversed |

## Left out

- Sockets, TLS, files, memory allocation and the Lua bindings: input is a list of reads or an array, and freeing, leaks
  and failed allocations are not modelled.
- Table sizes: unbounded, so an `int` size that overflows after many regrowths is not covered.
- Larray.LArray.Geti: a table index is not truncated to `int`.
- HashMap.HashMap.Geti: a removed slot keeps hash 0 and a dangling key, so looking up a key whose hash is 0 while
  such slots are present is undefined in C and excluded; the hash function is a parameter.
- RouteMatch.RouteMatch: needs that no route runs off its pattern for this request (`Pattern.RunsOff`); what the code
  does after that is undefined.
- HeaderLines.FieldsInParts: field text that holds a NUL is left to the reference parse.
- ParseHeader.ParseHeader: where the C code writes before an empty string or reads past the header the model returns
  `Undefined` and nothing is proved about what follows.
- ChunkedBody.CutsDoNotMatter: trailer fields, malformed streams and sizes beyond `int` are not covered.
- DeepCopy.DeepCopy: what a whole number becomes by way of a double is a parameter; `DeepCopyShape.Double` gives it
  where the double fits a `lua_Integer`, from 2^63 on C leaves it open. Doubles that are not whole, booleans, C
  functions and light userdata are copied as they are. A function's upvalues and a userdata's metatable are not followed
  (the source copies the latter); coroutines, which copy to nil, and `luaI_copyvars` are left out. The registry memo may
  hold earlier copies; they are kept and used again as they are.
- ThreadLocks.MutualExclusion: needs that the table does not grow while a thread waits, as the code does; thread
  cancellation and fairness are not modelled.
- BlockHash.BlockHash.Update: the memory up to the end of the bytes read must be there; otherwise the call is undefined.
- BlockHash.BlockHash.Sha01Final: the zero fill runs to the end of the block, where the source clears one byte further;
  the digest is the chaining value, not its text; the compression function is a parameter.
- CountingSort.SortAll: negative numbers, on which the source ends the process, and fractional ones, which it truncates
  to `int`, are not covered.
- Sorting elements are `real`: NaN and the empty input are left out, and so are the sorts that are not meant to be used.
- BLAKE, SHA-2, FNV and the small checksums, base64, `json_parse` and `rolling_file_parse`.
