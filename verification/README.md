# Verified models of eight algorithms

Dafny models of the parts of this repository whose correctness is hardest to see from the
code, each with proofs of what the code promises.

| files | what they model |
|---|---|
| `ChainTable.dfy`, `IteratorLinks.dfy`, `DebugDb.dfy` | the iterator database of libc++'s debug mode (`libcxx/src/debug.cpp`): two chained hash tables whose nodes point at each other, as heap objects |
| `Primes.dfy`, `Modular.dfy`, `PrimeLimits.dfy`, `PrimeGaps.dfy`, `NextPrime.dfy` | `__next_prime` (`libcxx/src/hash.cpp`): wheel factorisation modulo 210, with the number theory it rests on |
| `CodecBits.dfy`, `CodecMachine.dfy`, `CodecSteps.dfy`, `CodecFormats.dfy`, `CodecValues.dfy`, `CodecLaws.dfy`, `CodecTheorems.dfy`, `CodecStops.dfy`, `CodecBeyond.dfy`, `CodecBuffers.dfy`, `CodecLengths.dfy` | the UTF-8, UTF-16, UCS-2 and UCS-4 converters of `libcxx/src/locale.cpp` and their length functions |
| `FixSweep.dfy`, `FixConflicts.dfy`, `FixTexts.dfy`, `Rewriting.dfy` | the removal of conflicting fix-its (`clang-tools-extra/clang-tidy/ClangTidyDiagnosticConsumer.cpp`), and how those that are left are applied to a file (`clang/lib/Rewrite/Rewriter.cpp`) |
| `CallOnce.dfy`, `TimedMutex.dfy`, `RecursiveTimedMutex.dfy`, `Interleaving.dfy` | `call_once`, `timed_mutex` and `recursive_timed_mutex` (`libcxx/src/mutex.cpp`) as interleaved steps of any number of threads |
| `SharedCount.dfy`, `Interleaving.dfy` | the strong and weak counts behind `shared_ptr` (`libcxx/src/memory.cpp`), likewise |
| `DeltaDebugging.dfy`, `FailureCache.dfy` | the delta-debugging algorithm of `clang/utils/token-delta.py` |
| `TidyOptions.dfy`, `OptionsCache.dfy`, `CheckLists.dfy`, `GlobItems.dfy` | the cached lookup of clang-tidy options (`clang-tools-extra/clang-tidy/ClangTidyOptions.cpp`), and what merged lists of checks enable |
| `Collections.dfy` | an optional value and properties of sequences, used by several of the others |

`dafny verify dfyconfig.toml` checks the whole project.

## How the models are made

**Debug database.** The iterator table and the container table are the same code written
twice in the source; here they are one generic class `Table`, used twice. The nodes, the
bucket arrays, the `__next_` links and the growing array of iterator nodes of a container
are Dafny objects that the methods update in place. `DebugDb.View` is what the database
means: a map from iterators to the container they belong to, if any, and a set of
containers. Hashing a pointer is an arbitrary function. Allocation can only fail by
`calloc` being asked for more than an address space holds, in which case the operation
throws and leaves the database as it was.

**Next prime.** The 48 unrolled divisions of the inner loop are one loop over the table of
its 48 increments. All arithmetic is modulo the word size, 32 or 64 bits; that the two
limits `0xFFFFFFFB` and `0xFFFFFFFFFFFFFFC5` are prime is proved, by Pocklington's
criterion, so that no search ever wraps around. No larger number of the word is prime
(`PrimeGaps`), so that the overflow check refuses no number it could serve.

**Converters.** A converter is a loop over one step; a step sees the units and the room
that are left and takes one character or stops with partial or error. The tests within a
step are in the order of the source. The loop, the array it writes to and the two header
modes are methods over an arbitrary step. Each converter is proved to translate exactly
the Unicode characters up to Maxcode from one format to another (`CodecLaws`), and the
theorems about runs follow from that once for all of them (`CodecMachine`). The big- and
little-endian converters differ in a parameter.

**Conflict sweep.** Sorting keeps track of which event went where, so that the theorem
covers every order `std::sort` may leave tied events in. The negation of an unsigned offset
is modelled as the code does it, with its wrap-around. `FixTexts` keeps a file as what stands
at each of its original positions; `Rewriting` is the buffer that is changed in place, with
corrected offsets, and is proved to hold those contents in a row.

**Threads.** A state holds the shared variables and the place of each thread. A step is one
access to a shared variable, or one critical section. Waits may end by themselves, and
timed waits by timeout; a weak compare-exchange may fail for no reason. Auxiliary fields
(`runner`, `completions`, `holder`, `depth`) record history and no step depends on them,
but that a thread may only call unlock when it has the lock.

**Delta debugging.** A list of changes stands for the set of its elements, and the test is
an arbitrary function of that set. The class with the failure cache is proved to compute
the same as recursive functions that know no cache.

**Options cache.** The file system is four arbitrary functions that do not change. A path is
the list of its parts, and its parent has one part less.

## Where the code does less than one would expect

`utf8_to_utf16` compares every first octet with Maxcode, and not only the character
(`libcxx/src/locale.cpp:1966`), which its counterpart `utf8_to_ucs4` does not do. So with
a Maxcode from 0x80 to 0xC2 it refuses characters that are allowed. `MaxcodeExample` is a
concrete input, and `SameStringsExactly` and `Utf16RoundTripExactly` show that the two
decoders agree, and that UTF-16 survives a round trip, exactly when Maxcode is below 0x80
or at least 0xC3.

With a Maxcode above 0x10FFFF the encoders from UCS-4 take numbers that are no characters
and write only some of their bits (`CodecBeyond`). Numbers up to 0x1FFFFF are then refused on
the way back, but larger ones may come back as other characters: 0x410000 comes back from
UTF-8, and 0x210000 from UTF-16, as 0x10000. `BeyondReadInUtf8` and `BeyondReadInUtf16` say
what becomes of every such number.

`try_lock` of both mutexes only tries the internal mutex, and returns false if any other
thread is within one of its short critical sections. So it can fail although no thread ever
has the lock (`TimedMutex.TryLockFailsOnFreeMutex`), and `recursive_timed_mutex` can refuse
the very thread that has it (`RecursiveTimedMutex.TryLockFailsForOwner`). The two lemmas
`TryLockFails` say exactly when.

The sort key of a fix holds the negation of an unsigned offset as an int, which wraps around
beyond 2^31. Two fixes that begin or end together and whose other ends lie on different sides
of that are then not seen as nested (`WrappedKeys`), and the errors of both lose their fixes
(`FixConflicts.WrapExample`); `Dominates` is the condition the code in fact tests. The offsets
of a `SourceManager` are below 2^31 (`clang/include/clang/Basic/SourceManager.h:628`), so only
replacements made in some other way can reach this; for all others `KeepsFixesInShortFiles`
holds.

`mergeWith` is associative except for an empty list of checks between two others
(`MergeGrouping`). `ConsumeGlob` drops a glob from its list by the length it has without the
blanks around it. One blank before a glob does no harm, but with two or more its end, or all of
it, is read once more as a glob, without the minus that may precede it: the list `-  a` enables
the check `a` that it disables (`GlobItems.MisreadExample`). `GlobItems.Misread` is the exact
condition on a piece of a list.

## Model

| member | source | states |
|---|---|---|
| `ChainTable.Table.EachNodeOnce` | libcxx/src/debug.cpp:150-190 | in a valid table every recorded node occurs in exactly one place of exactly one chain, that of the bucket its key hashes to |
| `ChainTable.Table.Find` | libcxx/src/debug.cpp:540-558 | the search along a chain finds the node with a key if and only if there is one |
| `ChainTable.Table.Insert` | libcxx/src/debug.cpp:150-190 | a new key is added and nothing else changes, the element count stays at most the bucket count; or growing throws, which takes a table of 0x7FFFFFFE elements, and nothing changes |
| `ChainTable.Table.Grow` | libcxx/src/debug.cpp:150-175 | growing keeps every node object and makes room for one more element: the new number of buckets is the least prime above twice the old one |
| `ChainTable.Table.Rehash` | libcxx/src/debug.cpp:501-524 | moving all nodes to a new bucket array relinks the same node objects, none lost and none duplicated |
| `ChainTable.Table.MoveAll` | libcxx/src/debug.cpp:509-520 | the loops over the old buckets and along each chain move every node to the bucket its key hashes to |
| `ChainTable.Table.Erase` | libcxx/src/debug.cpp:192-223 | the node with the key is unlinked from its chain and counted out; all others stay |
| `ChainTable.Table.Unlink` | libcxx/src/debug.cpp:198-216 | unlinking the first node of a chain or one after another keeps the rest of the chain in order |
| `IteratorLinks.Cont.Add` | libcxx/src/debug.cpp:467-491 | an iterator node is appended to the container's array, which doubles when it is full |
| `IteratorLinks.Cont.Remove` | libcxx/src/debug.cpp:560-568 | exactly the one slot of the iterator node is closed up |
| `Collections.WithoutAt` | libcxx/src/debug.cpp:560-568 | that is, the iterators before it stay where they are and those behind it move up by one |
| `IteratorLinks.Attach` | libcxx/src/debug.cpp:121-142 | linking an iterator node and a container node keeps both directions of all links in agreement |
| `IteratorLinks.Release` | libcxx/src/debug.cpp:216-220 | an erased iterator node leaves no entry behind in its container |
| `IteratorLinks.DetachAll` | libcxx/src/debug.cpp:243-247 | every iterator of one container loses its link, and no other iterator does |
| `IteratorLinks.SwapContents` | libcxx/src/debug.cpp:427-456 | after the arrays are exchanged and the back pointers corrected, the iterators of the two containers have changed places |
| `DebugDb.Db.LinksAgree` | libcxx/src/debug.cpp:121-142 | an iterator node points at a container node exactly when that lists it, and lists it once; nothing dangles |
| `DebugDb.Db.SizesAgree` | libcxx/src/debug.cpp:188-217 | the element counts of the two tables are the numbers of iterators and containers |
| `DebugDb.Db.InsertI` | libcxx/src/debug.cpp:458-465 | the view gains a singular iterator, or growing throws |
| `DebugDb.Db.InsertC` | libcxx/src/debug.cpp:144-190 | the view gains a container, or growing throws |
| `DebugDb.Db.InsertIC` | libcxx/src/debug.cpp:121-142 | the view gains an iterator of the container, or nothing if the container is unknown |
| `DebugDb.Db.EraseI` | libcxx/src/debug.cpp:192-223 | the view loses the iterator |
| `DebugDb.Db.EraseC` | libcxx/src/debug.cpp:309-344 | the view loses the container, and its iterators become singular |
| `DebugDb.Db.InvalidateAll` | libcxx/src/debug.cpp:225-249 | exactly the iterators of the container become singular |
| `DebugDb.Db.Swap` | libcxx/src/debug.cpp:427-456 | exactly the iterators of the two containers change places |
| `DebugDb.Db.IteratorCopy` | libcxx/src/debug.cpp:346-372 | the copy belongs where the original does; from an unknown original a known copy becomes singular |
| `DebugDb.Db.FindContainerOf` | libcxx/src/debug.cpp:110-119 | the answer is the container the view records |
| `DebugDb.Db.KnowsContainer` | libcxx/src/debug.cpp:251-285 | a container is found exactly when the view has it |
| `DebugDb.Db.LessThanComparable` | libcxx/src/debug.cpp:414-425 | two iterators are comparable exactly when the view has both in the same container |
| `DebugDb.StepPointwise` | libcxx/src/debug.cpp:121-491 | what each operation makes of every iterator and container; swap moves exactly the iterators of one container to the other, erasing and invalidating a container make exactly its iterators singular, and copying from an unknown iterator makes a known one singular |
| `DebugDb.SwapTwice` | libcxx/src/debug.cpp:427-456 | a second swap undoes the first, and the order of the containers does not matter |
| `DebugDb.StepKeepsLinks` | libcxx/src/debug.cpp:121-491 | no operation leaves a link to a container that is gone |
| `DebugDb.RunKeepsLinks` | libcxx/src/debug.cpp:121-491 | nor does any sequence of operations |
| `DebugDb.SingularStays` | libcxx/src/debug.cpp:225-249 | an invalidated iterator stays singular through any operations that do not insert it or copy to it |
| `DebugDb.Run` | libcxx/src/debug.cpp:72-491 | over every sequence of operations on an empty database, the heap structure records what the operations on the plain map give; only a run of 0x7FFFFFFE operations can end early |
| `Primes.SquareRootCutOff` | libcxx/src/hash.cpp:209-213 | a number with no divisor below i whose quotient by i is below i is prime |
| `PrimeGaps.NoPrimeBeyond` | libcxx/src/hash.cpp:152-177 | no number of the word beyond the bound of the overflow check is prime |
| `PrimeGaps.OverflowExactly` | libcxx/src/hash.cpp:152-177 | every number has a least prime at or above it, and that fits in the word if and only if the overflow check lets the number pass |
| `PrimeLimits.Pocklington` | libcxx/src/hash.cpp:152-176 | the criterion by which the limits are shown to be prime |
| `PrimeLimits.LimitIsPrime` | libcxx/src/hash.cpp:152-176 | 0xFFFFFFFB and 0xFFFFFFFFFFFFFFC5 are prime, so a search from below them never wraps |
| `NextPrime.WheelComplete` | libcxx/src/hash.cpp:79-131 | the indices are exactly the residues modulo 210 without a factor 2, 3, 5 or 7 |
| `NextPrime.SmallPrimesExact` | libcxx/src/hash.cpp:24-75 | the table of small primes is exactly the primes up to 211, with 0 in front |
| `NextPrime.LowerBound` | libcxx/src/hash.cpp:184-196 | the binary search returns the first entry not below its argument |
| `NextPrime.NoPrimeSkipped` | libcxx/src/hash.cpp:559-566 | no prime lies strictly between one candidate and the next |
| `NextPrime.DivideBySmallPrimes` | libcxx/src/hash.cpp:206-214 | the divisions by small primes find a divisor, prove the candidate prime, or rule out every divisor below 211 |
| `NextPrime.DivideByPlane` | libcxx/src/hash.cpp:217-557 | the 48 unrolled divisions of one plane find a divisor, prove the candidate prime, or rule out every divisor up to the next plane |
| `NextPrime.TestCandidate` | libcxx/src/hash.cpp:206-558 | a candidate passes if and only if it is prime |
| `NextPrime.SearchFrom` | libcxx/src/hash.cpp:197-567 | the outer loop ends at the first prime not below n, without leaving the word |
| `NextPrime.NextPrime` | libcxx/src/hash.cpp:178-568 | for every n: overflow exactly above the limit, 0 for 0, and otherwise the least prime not below n |
| `CodecMachine.Resume` | libcxx/src/locale.cpp:1795-3145 | after any stop but an error, going on from `frm_nxt` and `to_nxt` with more input or more room gives what one call with everything gives; an error stays the same error in the same place |
| `CodecMachine.OnlyWholeCharacters` | libcxx/src/locale.cpp:1795-3145 | however a conversion stops, what it used up is the text of some characters and what it wrote is the text of the same ones |
| `CodecMachine.EveryCharacter` | libcxx/src/locale.cpp:1795-3145 | with room for what they become, all characters of a text are converted, and the result is ok |
| `CodecMachine.StopsBetweenCharacters` | libcxx/src/locale.cpp:1795-3145 | what has been used up converts alone, with ok, into exactly the room it filled |
| `CodecMachine.RoomToSpare` | libcxx/src/locale.cpp:1795-3145 | a finished conversion does not depend on how much room was left over |
| `CodecMachine.RoundTrip` | libcxx/src/locale.cpp:1795-3145 | whatever prefix was converted, converting it back gives that prefix |
| `CodecMachine.FinishesExactlyOnTexts` | libcxx/src/locale.cpp:1795-3145 | with ample room the result is ok if and only if the input is a text of characters the converter is for |
| `CodecMachine.SameCharacters` | libcxx/src/locale.cpp:1795-3145 | two converters from one format for the same characters stop at the same place |
| `CodecBits.Encoded3` | libcxx/src/locale.cpp:1829-1836 | the three octets of a character satisfy the decoders' tests, surrogates excluded, and decode to it |
| `CodecBits.Decoded4` | libcxx/src/locale.cpp:2021-2061 | four octets that pass the decoders' tests are those of the character they decode to, which is above 0xFFFF |
| `CodecBits.PairOctets` | libcxx/src/locale.cpp:1837-1855 | the octets made straight from a surrogate pair are those of its character |
| `CodecBits.OctetPair` | libcxx/src/locale.cpp:2047-2060 | the surrogate pair made straight from four octets is that of their character |
| `CodecValues.Utf8ByValue` | libcxx/src/locale.cpp:2308-2341 | the octets of a character are its digits in base 64, in as few octets as hold them, marked as in RFC 3629 |
| `CodecValues.Utf16ByValue` | libcxx/src/locale.cpp:2772-2795 | a character beyond 0xFFFF is two surrogates with the two digits in base 1024 of what it is beyond 0x10000; any other is one unit |
| `CodecValues.OctetOrder` | libcxx/src/locale.cpp:2776-2780 | the more significant octet of a unit comes first in big-endian order and last in little-endian order |
| `CodecValues.UcsByValue` | libcxx/src/locale.cpp:2559-2603 | in UCS-4 and UCS-2 a character is its number |
| `CodecTheorems.OctetsOfCharacter` | libcxx/src/locale.cpp:2782-2795 | UTF-16 octets are those of the units, in turn |
| `CodecLaws.Ucs4ToUtf8IsCodec` | libcxx/src/locale.cpp:2292-2345 | a step that takes something uses up input that is there and writes within the room; one that stops never reports ok; and with more input or room a step does the same, unless it had stopped with partial |
| `CodecLaws.Ucs4ToUtf8TranslatesExactly` | libcxx/src/locale.cpp:2292-2345 | exactly the scalar values up to Maxcode are converted, each to its UTF-8 octets, if and only if Maxcode is at most 0x10FFFF |
| `CodecLaws.Utf8ToUcs4IsCodec` | libcxx/src/locale.cpp:2347-2459 | the laws of a step stated for ucs4_to_utf8 hold for this converter too |
| `CodecLaws.Utf8ToUcs4Translates` | libcxx/src/locale.cpp:2347-2459 | exactly the UTF-8 octets of the scalar values up to Maxcode are converted, each sequence to its value |
| `CodecLaws.Utf16ToUtf8IsCodec` | libcxx/src/locale.cpp:1795-1870 | the laws of a step stated for ucs4_to_utf8 hold for this converter too |
| `CodecLaws.Utf16ToUtf8Translates` | libcxx/src/locale.cpp:1795-1870 | exactly the UTF-16 units of the scalar values up to Maxcode are converted, to their UTF-8 octets |
| `CodecLaws.Utf8ToUtf16IsCodec` | libcxx/src/locale.cpp:1949-2068 | the laws of a step stated for ucs4_to_utf8 hold for this converter too |
| `CodecLaws.Utf8ToUtf16Translates` | libcxx/src/locale.cpp:1949-2068 | the same for the opposite direction, but only for characters whose first octet is up to Maxcode as well |
| `CodecLaws.Ucs4ToUtf16IsCodec` | libcxx/src/locale.cpp:2755-2798 | the laws of a step stated for ucs4_to_utf8 hold for both of these converters too |
| `CodecLaws.Ucs4ToUtf16TranslatesExactly` | libcxx/src/locale.cpp:2887-2930 | exactly the scalar values up to Maxcode are converted, to their UTF-16 octets in either order, if and only if Maxcode is at most 0x10FFFF |
| `CodecLaws.Utf16ToUcs4IsCodec` | libcxx/src/locale.cpp:2800-2843 | the laws of a step stated for ucs4_to_utf8 hold for both of these converters too |
| `CodecLaws.Utf16ToUcs4Translates` | libcxx/src/locale.cpp:2932-2975 | the opposite direction |
| `CodecLaws.Ucs2ToUtf8IsCodec` | libcxx/src/locale.cpp:2559-2603 | the laws of a step stated for ucs4_to_utf8 hold for this converter too |
| `CodecLaws.Ucs2ToUtf8Translates` | libcxx/src/locale.cpp:2559-2603 | exactly the scalar values up to Maxcode that are one unit are converted |
| `CodecLaws.Utf8ToUcs2IsCodec` | libcxx/src/locale.cpp:2605-2684 | the laws of a step stated for ucs4_to_utf8 hold for this converter too |
| `CodecLaws.Utf8ToUcs2Translates` | libcxx/src/locale.cpp:2605-2684 | the opposite direction: four-octet sequences are refused |
| `CodecLaws.Ucs2ToUtf16IsCodec` | libcxx/src/locale.cpp:3019-3045 | the laws of a step stated for ucs4_to_utf8 hold for both of these converters too |
| `CodecLaws.Ucs2ToUtf16Translates` | libcxx/src/locale.cpp:3093-3119 | exactly the scalar values up to Maxcode that are one unit are converted, in either order |
| `CodecLaws.Utf16ToUcs2IsCodec` | libcxx/src/locale.cpp:3047-3069 | the laws of a step stated for ucs4_to_utf8 hold for both of these converters too |
| `CodecLaws.Utf16ToUcs2Translates` | libcxx/src/locale.cpp:3121-3143 | the opposite direction |
| `CodecTheorems.Ucs4Utf8RoundTrip` | libcxx/src/locale.cpp:2292-2459 | for every input and room, UTF-8 to UCS-4 and back gives what was used up, whatever Maxcode is, so no overlong form is accepted; and so does UCS-4 to UTF-8 and back, for a Maxcode up to 0x10FFFF |
| `CodecTheorems.Ucs4Utf16RoundTrip` | libcxx/src/locale.cpp:2755-2975 | the same for UTF-16 octets of either order |
| `CodecBeyond.Ucs4Utf8RoundTripExactly` | libcxx/src/locale.cpp:2292-2459 | UCS-4 survives the way to UTF-8 and back for all inputs if and only if Maxcode is at most 0x10FFFF |
| `CodecBeyond.Ucs4Utf16RoundTripExactly` | libcxx/src/locale.cpp:2755-2975 | the same for UTF-16 octets of either order |
| `CodecBeyond.BeyondReadInUtf8` | libcxx/src/locale.cpp:2333-2341 | the four octets written for a number beyond the characters are read as that number modulo 2^22 if that is a four-octet character, and refused otherwise |
| `CodecBeyond.BeyondReadInUtf16` | libcxx/src/locale.cpp:2784-2795 | the two units written for such a number are read as that number modulo 2^21 if that takes two units; otherwise the first unit, or after a wrong character the second, is refused |
| `CodecBeyond.BeyondExamplesInUtf8` | libcxx/src/locale.cpp:2333-2341 | all such numbers up to 0x1FFFFF are refused, but 0x410000 becomes 0x10000 |
| `CodecBeyond.BeyondExamplesInUtf16` | libcxx/src/locale.cpp:2784-2795 | all such numbers up to 0x1FFFFF are refused, but 0x210000 becomes 0x10000 |
| `CodecTheorems.Ucs2Utf8RoundTrip` | libcxx/src/locale.cpp:2559-2684 | the same for UCS-2 and UTF-8 |
| `CodecTheorems.Ucs2Utf16RoundTrip` | libcxx/src/locale.cpp:3019-3143 | the same for UCS-2 and UTF-16 octets |
| `CodecTheorems.Utf16Utf8RoundTrip` | libcxx/src/locale.cpp:1795-2068 | UTF-8 to UTF-16 and back for every Maxcode; UTF-16 to UTF-8 and back when Maxcode fits |
| `CodecTheorems.Utf16RoundTripExactly` | libcxx/src/locale.cpp:1966-1967 | that round trip holds for all inputs if and only if Maxcode is below 0x80 or at least 0xC3 |
| `CodecTheorems.SameStringsExactly` | libcxx/src/locale.cpp:1966-1967 | the two decoders from UTF-8 accept the same strings if and only if Maxcode is below 0x80 or at least 0xC3 |
| `CodecTheorems.MaxcodeExample` | libcxx/src/locale.cpp:1966-1967 | a two-octet input on which they differ |
| `CodecTheorems.Diagram` | libcxx/src/locale.cpp:2292-2930 | UCS-4 to UTF-8 to UTF-16 gives the units that UCS-4 to UTF-16 octets writes, in either order; both ways stop at the same character of any input; and the units convert back to the same octets |
| `CodecTheorems.Utf8Exactly` | libcxx/src/locale.cpp:1781-1793 | with room, both decoders finish with ok exactly on the strings of the grammar in section 4 of RFC 3629 |
| `CodecStops.StoppedBy` | libcxx/src/locale.cpp:1781-1793 | a conversion is ok exactly if nothing is left, and otherwise its result is that of the next step |
| `CodecStops.Ucs4ToUtf8Result` | libcxx/src/locale.cpp:2292-2345 | error exactly if the next number is a surrogate or above Maxcode, partial if only the room for it is missing, ok if there is none |
| `CodecStops.Ucs4ToUtf16Result` | libcxx/src/locale.cpp:2755-2798 | the same, in either order of octets |
| `CodecStops.Ucs2ToUtf8Result` | libcxx/src/locale.cpp:2559-2603 | the same for a 16-bit unit |
| `CodecStops.Ucs2ToUtf16Result` | libcxx/src/locale.cpp:3019-3045 | the same for a 16-bit unit, in either order of octets |
| `CodecStops.Utf8ToUcs4Result` | libcxx/src/locale.cpp:2347-2459 | partial exactly if what is left is shorter than its first octet calls for in RFC 3629, or there is no room; otherwise error; and no character up to Maxcode stands there that would fit |
| `CodecStops.Utf8ToUtf16Result` | libcxx/src/locale.cpp:1949-2068 | the same, but error at once for a first octet above Maxcode, and partial for four octets of a character with room for one unit only |
| `CodecStops.Utf8ToUcs2Result` | libcxx/src/locale.cpp:2605-2684 | the same as for UCS-4, but no waiting for sequences of four octets |
| `CodecStops.Utf16ToUtf8Result` | libcxx/src/locale.cpp:1795-1870 | error exactly for a unit above Maxcode, a low surrogate on its own, a high one with no low one behind it, or a pair above Maxcode; partial if a high surrogate is last or only room is missing |
| `CodecStops.Utf16ToUcs4Result` | libcxx/src/locale.cpp:2800-2843 | partial exactly if a unit or the second one of a pair is incomplete, or there is no room; otherwise error |
| `CodecStops.Utf16ToUcs2Result` | libcxx/src/locale.cpp:3047-3069 | partial exactly if half a unit is left or there is no room; otherwise error |
| `CodecBuffers.Loop` | libcxx/src/locale.cpp:1963-2067 | the loop writes to the buffer what the step function says and leaves the rest of the buffer alone |
| `CodecBuffers.Encode` | libcxx/src/locale.cpp:2300-2307 | with generate_header the header comes first, or nothing is written and the result is partial |
| `CodecBuffers.Decode` | libcxx/src/locale.cpp:2355-2360 | with consume_header a header at the start is skipped, and counts as used up |
| `CodecBuffers.EncodedMeans` | libcxx/src/locale.cpp:2300-2307 | without generate_header the output is that of the conversion; with it the header and then that of the conversion with the room that is left, or, if the header does not fit, nothing and partial |
| `CodecBuffers.DecodedMeans` | libcxx/src/locale.cpp:2355-2360 | only with consume_header, and only if the input starts with the header, that is skipped and counted as used up |
| `CodecBuffers.HeaderModesUtf8` | libcxx/src/locale.cpp:2292-2361 | UCS-4 text of any Maxcode written as UTF-8 with a header is read back whole by a reader that consumes it; without one the reader keeps everything but a byte order mark at the start |
| `CodecBuffers.HeaderModesUtf16` | libcxx/src/locale.cpp:2755-2975 | the same for UTF-16 octets of either order and their byte order mark |
| `CodecBuffers.HeaderModesUnits` | libcxx/src/locale.cpp:1795-1962 | the same for UTF-16 units written as UTF-8, for the characters that both converters take |
| `CodecBuffers.HeaderModesUcs2Utf8` | libcxx/src/locale.cpp:2559-2617 | the same for UCS-2 written as UTF-8 |
| `CodecBuffers.HeaderModesUcs2Utf16` | libcxx/src/locale.cpp:3019-3143 | the same for UCS-2 written as UTF-16 octets of either order |
| `CodecLengths.Utf8ToUtf16Length` | libcxx/src/locale.cpp:2191-2290 | for every input, limit, Maxcode and header mode, the result is the number of octets the converter uses up given that many units of room |
| `CodecLengths.Utf8ToUcs4Length` | libcxx/src/locale.cpp:2461-2557 | the same for its converter |
| `CodecLengths.Utf8ToUcs2Length` | libcxx/src/locale.cpp:2686-2753 | the same for its converter |
| `CodecLengths.Utf16ToUcs4Length` | libcxx/src/locale.cpp:2845-2885 | the same for its converter, in either order of octets |
| `CodecLengths.Utf16ToUcs2Length` | libcxx/src/locale.cpp:3071-3091 | the same for its converter, in either order of octets |
| `FixSweep.KeysTellExactly` | clang-tools-extra/clang-tidy/ClangTidyDiagnosticConsumer.cpp:420-455 | for all 32-bit offsets the five-part keys order the begins and ends of two intervals like nested brackets exactly when one encloses the other, a tie going to the larger error, if and only if no tie is decided across 2^31 |
| `FixSweep.WrappedKeys` | clang-tools-extra/clang-tidy/ClangTidyDiagnosticConsumer.cpp:448-451 | a tie that is decided across 2^31 makes two nested intervals look as if they crossed |
| `FixSweep.Sort` | clang-tools-extra/clang-tidy/ClangTidyDiagnosticConsumer.cpp:497 | the events come out ordered by their keys, each as often as it went in |
| `FixSweep.Sweep` | clang-tools-extra/clang-tidy/ClangTidyDiagnosticConsumer.cpp:494-511 | the counter is the number of open intervals throughout and ends at 0; an error stays applicable exactly when no other interval is open at any of its events |
| `FixSweep.SweepDecides` | clang-tools-extra/clang-tidy/ClangTidyDiagnosticConsumer.cpp:405-511 | whatever order tied events are in, that is the case exactly when each of its intervals encloses every other it overlaps and ties with none across 2^31 |
| `FixSweep.KeptAreDisjoint` | clang-tools-extra/clang-tidy/ClangTidyDiagnosticConsumer.cpp:405-413 | intervals of errors that stay applicable never overlap |
| `FixConflicts.Sizes` | clang-tools-extra/clang-tidy/ClangTidyDiagnosticConsumer.cpp:467-474 | the size of an error is the sum of the lengths of its fixes |
| `FixConflicts.SizeAdds` | clang-tools-extra/clang-tidy/ClangTidyDiagnosticConsumer.cpp:467-474 | sizes add up, and the size of one replacement is the number of bytes it replaces |
| `FixConflicts.BuildEvents` | clang-tools-extra/clang-tidy/ClangTidyDiagnosticConsumer.cpp:476-491 | every file gets the begin and the end of each of its non-empty fixes |
| `FixConflicts.RemoveIncompatibleErrors` | clang-tools-extra/clang-tidy/ClangTidyDiagnosticConsumer.cpp:403-520 | an error keeps its fixes if each of its non-empty ones encloses every other fix of the file it overlaps and ties with none across 2^31; otherwise it has none and one note more; messages and older notes stay, and no two non-empty fixes that are left overlap in any file |
| `FixSweep.OverlapShares` | clang-tools-extra/clang-tidy/ClangTidyDiagnosticConsumer.cpp:405-413 | two intervals overlap exactly if they share a position |
| `FixConflicts.KeepsFixesInShortFiles` | clang-tools-extra/clang-tidy/ClangTidyDiagnosticConsumer.cpp:405-413 | in files of up to 2^31 bytes that is if and only if each of its non-empty fixes encloses every other it overlaps |
| `FixConflicts.WrapExample` | clang-tools-extra/clang-tidy/ClangTidyDiagnosticConsumer.cpp:448-451 | two errors of which one encloses the other, and which both lose their fixes |
| `FixConflicts.KeptFixesAreDisjoint` | clang-tools-extra/clang-tidy/ClangTidyDiagnosticConsumer.cpp:405-413 | no two non-empty fixes of kept errors overlap, in any file |
| `FixTexts.LeftInAnyOrder` | clang-tools-extra/clang-tidy/ClangTidyDiagnosticConsumer.cpp:405-413 | applied in any order, the fixes of a file that are left give the same contents at every original position |
| `Rewriting.RewriteBuffer.ReplaceText` | clang/lib/Rewrite/Rewriter.cpp:108-115 | the text from the corrected offset on is replaced, and what comes after it counts as moved by the difference in length |
| `Rewriting.NextReplacement` | clang/include/clang/Rewrite/Core/RewriteBuffer.h:92-100 | for fixes that do not overlap, correcting an offset by the changes of all earlier replacements before it finds the place where its text stands now, whatever their order |
| `Rewriting.ApplyFixes` | clang-tools-extra/clang-tidy/ClangTidy.cpp:119-131 | the buffer ends up with the contents of all original positions in a row, each replaced by its fix |
| `Rewriting.LeftRewrite` | clang-tools-extra/clang-tidy/ClangTidyDiagnosticConsumer.cpp:405-413 | the fixes of a file that are left may be applied so in any order, and the text is the same for all orders |
| `CallOnce.StepInv` | libcxx/src/mutex.cpp:227-282 | every step of every thread keeps the invariant of the mutex, the flags and the places of the threads |
| `CallOnce.Promises` | libcxx/src/mutex.cpp:227-282 | in every state of every run at most one thread is running func for a flag, func has returned at most once, and whoever returned did so after it |
| `CallOnce.EndsAsFunc` | libcxx/src/mutex.cpp:259-282 | in every run a call ends by throwing if and only if func has thrown in it; it returns if func has returned in it, and also if it never ran func |
| `CallOnce.ReturnsAtOnce` | libcxx/include/mutex:559-576 | a call on a flag whose func has returned comes back with its first step |
| `CallOnce.WaitsEnd` | libcxx/src/mutex.cpp:243-282 | the broadcast of any call that has run func ends every wait |
| `CallOnce.ThrowReopens` | libcxx/src/mutex.cpp:268-275 | after a throw is stored the flag is as at the start |
| `CallOnce.DoneStays` | libcxx/src/mutex.cpp:259-265 | no step opens a flag whose func has returned |
| `CallOnce.NoDeadlock` | libcxx/src/mutex.cpp:227-282 | while a call is under way some thread can take a step: a thread that sleeps will be woken |
| `CallOnce.RunsEnd` | libcxx/src/mutex.cpp:227-282 | without new calls and spurious wake-ups every run is over after a bounded number of steps, whatever the schedule and whichever calls throw |
| `CallOnce.EveryCallEnds` | libcxx/src/mutex.cpp:227-282 | and where it is over every call has returned or thrown |
| `TimedMutex.StepInv` | libcxx/src/mutex.cpp:123-150 | every step keeps the invariant of the flag and the places of the threads |
| `TimedMutex.Promises` | libcxx/include/mutex:243-258 | in every state of every run at most one thread has the lock, the flag says whether one has, and a waiter on a free mutex implies a pending notification or a waiter that was woken |
| `TimedMutex.Endings` | libcxx/src/mutex.cpp:123-142 | lock returns only with the lock; a call that has tested the flag is refused only while another thread has the lock, a timed one only once its time is up |
| `TimedMutex.Calls` | libcxx/src/mutex.cpp:123-150 | in every run a call of lock ends only with the lock and one of unlock only without it; try_lock never waits, nor does try_lock_until whose deadline has passed at the start |
| `TimedMutex.DeadlineHolds` | libcxx/include/mutex:243-258 | try_lock_until whose deadline lies ahead is not refused before a wait has told it that it has passed |
| `TimedMutex.TimeoutEnds` | libcxx/include/mutex:243-258 | a wait that has timed out is the last of its call |
| `TimedMutex.WaitsEnd` | libcxx/src/mutex.cpp:123-150 | a notification ends exactly the wait it picks |
| `TimedMutex.TryLockFails` | libcxx/src/mutex.cpp:132-142 | in every run a try_lock returns false if and only if, when it tried the internal mutex, some thread was holding that or the flag was set |
| `TimedMutex.TryLockFailsOnFreeMutex` | libcxx/src/mutex.cpp:135-136 | a run in which try_lock returns false although no thread ever has the lock |
| `TimedMutex.NoDeadlock` | libcxx/src/mutex.cpp:123-150 | some thread can take a step, unless all wait for one that keeps the lock |
| `TimedMutex.RunsEnd` | libcxx/src/mutex.cpp:123-150 | without new calls and waits that end by themselves every run is soon over |
| `TimedMutex.AtRest` | libcxx/src/mutex.cpp:123-150 | and where it is over threads still wait only if another has the lock: no wakeup is lost |
| `RecursiveTimedMutex.StepInv` | libcxx/src/mutex.cpp:165-209 | every step keeps the invariant of count, id and the places of the threads |
| `RecursiveTimedMutex.Promises` | libcxx/src/mutex.cpp:165-209 | in every state of every run at most one thread has the lock, the count is its acquisitions less its releases and within the largest size_t, and 0 exactly when no id is recorded; a waiter on a free mutex implies a pending notification or a waiter that was woken |
| `RecursiveTimedMutex.Endings` | libcxx/src/mutex.cpp:165-197 | a call that has looked at the count and returns with success has the lock; it is refused only while another thread has the lock or the count is at its limit, where lock throws |
| `RecursiveTimedMutex.Calls` | libcxx/src/mutex.cpp:165-209 | in every run a call of lock is never refused and ends with the lock once more, unless it throws, and unlock with the lock once less; try_lock never waits, nor does try_lock_until whose deadline has passed at the start |
| `RecursiveTimedMutex.DeadlineHolds` | libcxx/include/mutex:286-310 | try_lock_until whose deadline lies ahead is not refused before a wait has told it that it has passed, unless its own count is at the limit |
| `RecursiveTimedMutex.TimeoutEnds` | libcxx/include/mutex:286-310 | a wait that has timed out is the last of its call |
| `RecursiveTimedMutex.WaitsEnd` | libcxx/src/mutex.cpp:165-209 | a notification ends exactly the wait it picks |
| `RecursiveTimedMutex.TryLockFails` | libcxx/src/mutex.cpp:183-197 | in every run a try_lock returns false if and only if, when it tried the internal mutex, some thread was holding that, another had the lock, or the count was at its limit; otherwise the thread has the lock once more |
| `RecursiveTimedMutex.TryLockFailsForOwner` | libcxx/src/mutex.cpp:187-188 | a run in which try_lock refuses the thread that has the lock, its count below the limit |
| `RecursiveTimedMutex.NoDeadlock` | libcxx/include/mutex:286-310 | some thread can take a step, unless all wait for one that keeps the lock |
| `RecursiveTimedMutex.RunsEnd` | libcxx/src/mutex.cpp:165-209 | without new calls and waits that end by themselves every run is soon over |
| `RecursiveTimedMutex.AtRest` | libcxx/src/mutex.cpp:199-209 | and where it is over threads still wait only if another has the lock, although the notification comes after the internal mutex is released |
| `SharedCount.StepInv` | libcxx/src/memory.cpp:56-115 | every atomic access keeps the counts in step with the references the threads hold |
| `SharedCount.Promises` | libcxx/src/memory.cpp:62-101 | in every state of every run each callback has been called at most once, `__on_zero_shared` only with no strong reference left, `__on_zero_shared_weak` only after it and with no reference left |
| `SharedCount.NeverTouchedAfter` | libcxx/src/memory.cpp:96-101 | no thread can take a step on a control block after its last callback |
| `SharedCount.ZeroStays` | libcxx/src/memory.cpp:103-115 | once the strong count is -1 no copy and no lock brings it back |
| `SharedCount.LockSucceedsOnlyAlive` | libcxx/src/memory.cpp:103-115 | lock succeeds only while the object is alive |
| `SharedCount.ExchangeOutcome` | libcxx/src/memory.cpp:106-114 | lock takes a reference exactly when the count is as expected and the exchange does not fail for no reason, gives up exactly when the object is gone, and tries again only after a spurious failure or a change by another thread |
| `SharedCount.LockOutcome` | libcxx/src/memory.cpp:103-107 | the load of lock gives up on -1 and otherwise expects what it has loaded |
| `SharedCount.StepHolders` | libcxx/src/memory.cpp:56-115 | a copy, a release and a successful lock change the references of the calling thread by one, and no others |
| `SharedCount.CountsAreCalls` | libcxx/src/memory.cpp:56-115 | in every state of every run the strong count is the number of copies and successful locks less the releases, and the weak one likewise, less the one that the strong ones give up together |
| `SharedCount.AtRestByCalls` | libcxx/src/memory.cpp:62-101 | with no call under way `__on_zero_shared` has been called exactly if there was one more release than copies and successful locks, and `__on_zero_shared_weak` exactly if besides every weak copy was released |
| `SharedCount.AtRest` | libcxx/src/memory.cpp:62-101 | with no call under way each callback has been called exactly when its references are gone |
| `DeltaDebugging.DeltaGood` | clang/utils/token-delta.py:63-93 | from a passing list, delta returns a passing part of it from which no element can be left out |
| `DeltaDebugging.SearchGood` | clang/utils/token-delta.py:82-93 | whatever search returns is such a part |
| `DeltaDebugging.SearchNone` | clang/utils/token-delta.py:82-93 | search finds nothing only if every piece, and what is left without it, fails |
| `DeltaDebugging.RefineParts` | clang/utils/token-delta.py:48-61 | splitting all pieces keeps the list, and makes no new piece only if all are single elements |
| `DeltaDebugging.SplitHalves` | clang/utils/token-delta.py:48-61 | two elements or more are split in halves, in order |
| `DeltaDebugging.RunIsMinimal` | clang/utils/token-delta.py:33-46 | run fails exactly when the initial test fails; otherwise it returns a passing subset that is minimal element by element, and for a monotone test smallest among all its subsets |
| `DeltaDebugging.NoRepeats` | clang/utils/token-delta.py:33-93 | the result has no element twice, even if the input had |
| `FailureCache.DeltaAlgorithm.GetTestResult` | clang/utils/token-delta.py:20-31 | the answer is that of the test, which is run only on sets not found to fail before |
| `FailureCache.DeltaAlgorithm.Run` | clang/utils/token-delta.py:33-46 | whatever the cache holds, the result is that of the algorithm without a cache, and no set is found to fail twice |
| `FailureCache.DeltaAlgorithm.Delta` | clang/utils/token-delta.py:63-80 | the same for delta, which ends |
| `FailureCache.DeltaAlgorithm.Search` | clang/utils/token-delta.py:82-93 | the same for the loop of search |
| `TidyOptions.MergeWith` | clang-tools-extra/clang-tidy/ClangTidyOptions.cpp:117-144 | the later value wins in every field and for every check option that has one, and the earlier one stays otherwise; check lists are joined |
| `CheckLists.JoinedListsExactly` | clang-tools-extra/clang-tidy/ClangTidyDiagnosticConsumer.cpp:123-159 | a joined list enables what the second list enables on top of the first, for every non-empty name and for no other |
| `CheckLists.FirstOfTwo` | clang-tools-extra/clang-tidy/ClangTidyDiagnosticConsumer.cpp:132-134 | whatever blanks a list has, a list joined to it does not change how its first glob is read, nor where the rest begins |
| `GlobItems.ReadAsWrittenExactly` | clang-tools-extra/clang-tidy/ClangTidyDiagnosticConsumer.cpp:132-134 | the items with a glob that the code reads are those written between the commas if and only if no piece has, after its minus, two or more blanks before its glob, but for exactly two blanks before a glob that ends in a minus |
| `GlobItems.EnablesAsWritten` | clang-tools-extra/clang-tidy/ClangTidyDiagnosticConsumer.cpp:148-159 | a list without such a piece enables exactly what is written in it, for every non-empty name |
| `GlobItems.NoneMissed` | clang-tools-extra/clang-tidy/ClangTidyDiagnosticConsumer.cpp:132-134 | whatever blanks it has, at least as many items with a glob are read as are written |
| `GlobItems.NameAlone` | clang-tools-extra/clang-tidy/ClangTidyDiagnosticConsumer.cpp:123-159 | the name of a check enables it, with a minus before it disables it, and does nothing to other checks |
| `CheckLists.MatchesStar` | clang-tools-extra/clang-tidy/ClangTidyDiagnosticConsumer.cpp:135-145 | a star in a glob stands for anything |
| `CheckLists.MatchesPrefix` | clang-tools-extra/clang-tidy/ClangTidyDiagnosticConsumer.cpp:135-145 | and what is not a star for itself |
| `GlobItems.MisreadExample` | clang-tools-extra/clang-tidy/ClangTidyDiagnosticConsumer.cpp:133-134 | a list that disables a check, with two blanks behind the minus, enables it |
| `TidyOptions.MergeGrouping` | clang-tools-extra/clang-tidy/ClangTidyOptions.cpp:117-144 | three option sets give the same merged either way round, but exactly for an empty check list between two others |
| `TidyOptions.NothingToMerge` | clang-tools-extra/clang-tidy/ClangTidyOptions.cpp:117-144 | the empty option set changes nothing on either side |
| `TidyOptions.NearestAncestor` | clang-tools-extra/clang-tidy/ClangTidyOptions.cpp:169-206 | the options of a directory are those of its nearest ancestor with a configuration, or the defaults |
| `TidyOptions.LeastHandlerDecides` | clang-tools-extra/clang-tidy/ClangTidyOptions.cpp:218-255 | the first handler whose file can be read, is not empty and parses decides |
| `TidyOptions.NoHandlerDecides` | clang-tools-extra/clang-tidy/ClangTidyOptions.cpp:218-255 | and there is no result if and only if there is no such handler |
| `TidyOptions.AttemptExactly` | clang-tools-extra/clang-tidy/ClangTidyOptions.cpp:218-250 | a handler has a result exactly if its file is a regular one, can be read, is not empty and parses |
| `TidyOptions.ConfigExactly` | clang-tools-extra/clang-tidy/ClangTidyOptions.cpp:208-256 | a directory has options of its own exactly if it is there and some handler has a result; in every field and check option the overriding ones win over those of the first such handler, and these over the defaults |
| `TidyOptions.NoConfigOptions` | clang-tools-extra/clang-tidy/ClangTidyOptions.cpp:146-167 | without any configuration the overriding options win over the defaults |
| `OptionsCache.FileOptionsProvider.TryReadConfigFile` | clang-tools-extra/clang-tidy/ClangTidyOptions.cpp:208-256 | the result of that handler, merged between the defaults and the overriding options; none if the directory is missing |
| `OptionsCache.FileOptionsProvider.WalkUp` | clang-tools-extra/clang-tidy/ClangTidyOptions.cpp:183-195 | the walk ends, asks no directory twice and never "", and its result is right for every directory it passed |
| `OptionsCache.FileOptionsProvider.GetOptions` | clang-tools-extra/clang-tidy/ClangTidyOptions.cpp:169-206 | the answer is that of the lookup without a cache, and everything cached stays right |
| `OptionsCache.DirectoryOfFile` | clang-tools-extra/clang-tidy/ClangTidyOptions.cpp:169-182 | that lookup starts at the directory that with the last part of its name makes the absolute path of the file |
| `OptionsCache.AnswerAll` | clang-tools-extra/clang-tidy/ClangTidyOptions.cpp:169-206 | no answer depends on the queries before it |

## Left out

- The order in which the debug database takes its own mutex: each operation is one step, as its lock guard makes it.
- `__dereferenceable`, `__decrementable`, `__addable` and `__subscriptable`: calls of virtual functions that each container type defines for itself.
- The memory of the node objects: `malloc`, `realloc` and `free` are Dafny allocation, and only the growth of a bucket array can fail.
- The check for overflow in a build without exceptions, where it does nothing.
- The copies of `utf16_to_utf8` and `utf8_to_utf16` on 32-bit units: the same code, with every unit cut to 16 bits.
- `static_cast<int>` in the length functions: results beyond the range of int.
- `CodecTheorems.Diagram`: a Maxcode above 0x10FFFF, with which numbers that are no characters are written differently in the two formats.
- Resuming with a header mode: a second call would write or look for the header again.
- `FixConflicts.RemoveIncompatibleErrors`: a fix that ends at 2^32 or beyond, and an error that replaces 2^31 bytes or more, where `unsigned` and `int` overflow.
- `FixSweep.SweepDecides`: the same.
- `Rewriting.NextReplacement`: the walk down the `DeltaTree`; the deltas are a list, as the text is a string and not a `RewriteRope`.
- Zero-length fixes: the sweep skips them, and the rewriting of a file is proved without them.
- Weak memory: every atomic access is one sequentially consistent step.
- Nested calls: a thread is in one call at a time, so func calling call_once again is not modelled.
- Overflow of the reference counts.
- The `force` argument of the delta algorithm, and the test itself: running a compiler on a temporary file.
- The default list of handlers of clang-tidy, the YAML parser and its messages: the handlers are a parameter.
- Facets, character tables and by-name locales of `locale.cpp`; everything else in these directories.
