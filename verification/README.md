# Dalvik DEX loader: verified core

A Dafny model of the parts of the Dalvik virtual machine on which the rest leans: the structural
verifier of DEX files in `libdex` and the fast code that trusts it, the streaming SHA-1, the
hash indexes for classes and Zip entries, the debug-info decoder, the mutex-free cache and the
quasi-atomic operations of the VM, and its expandable bit vector.

The two sides are linked wherever the program relies on a link. A verified file sorts prototypes
by their index, a verified code item makes the binary search for catch handlers a linear scan, an
accepted walk over the sections leaves an index that answers exactly the items, and so on.

`dafny verify dfyconfig.toml` checks everything.

## How it is laid out

| file | models |
|---|---|
| `Sha1Spec.dfy`, `Sha1.dfy` | RFC 3174 as a definition, and `libdex/sha1.cpp` refining it |
| `AtomicCache.dfy` | one entry of the cache of `vm/AtomicCache.*` as a transition system over any number of threads |
| `QuasiAtomic.dfy` | `vm/Atomic.cpp`: linearizability of the striped mutexes and of the compare-and-swap loop |
| `Leb128.dfy` | bytes and little-endian loads (`Memory`), and LEB128 numbers, section 7.6 of DWARF 3 |
| `Mutf8.dfy`, `DexUtf.dfy` | modified UTF-8 (section 4.4.7 of the JVM specification), its order, descriptors and class names |
| `DexProto.dfy` | the id tables as cross-verified, and comparison of prototypes |
| `DexDataMap.dfy`, `SectionWalk.dfy`, `ItemVisitors.dfy` | the data map, the two passes over the map list, and the item checks as their visitors |
| `DexCatch.dfy`, `DexCatchWrite.dfy` | try tables and catch handlers: verifier, lookup, iterator, code size; and code items as they are written |
| `Probing.dfy` | words as numbers with `dexRoundUpPower2` (`Words`), and the theory of linear probing |
| `ClassLookup.dfy`, `ZipArchive.dfy`, `ZipWrite.dfy` | the two hash indexes, and central directories as they are written |
| `DebugInfo.dfy`, `DebugHistory.dfy` | the debug-info state machine, the decoder that runs it, and what it reports as a history of the operations |
| `DebugVerify.dfy`, `DebugWrite.dfy` | the verifier of the streams, and streams as they are written |
| `BitVector.dfy` | the bit vector as a set of numbers |
| `EncodedValue.dfy` | encoded values, arrays and annotations as trees |
| `ClassData.dfy`, `ClassDataWrite.dfy` | class_data_item, read and as it is written |

Code that changes things in place is a method or a class with loops; each is proved against a
function or a predicate on values, and the properties are lemmas about those.

## What the model assumes

- The host is little-endian, so the swapping macros do nothing, and `unsigned long` in SHA-1 and
  `long` in the Zip code have 32 bits, as on the ARM machines the VM is for. Characters are unsigned there.
- Bytes are numbers below 256 and words numbers below 2^32, with every wrap-around written out;
  only SHA-1 uses bit vectors. `x & 0x7f` is `x % 128` and a shift right is a division.
- Memory is a sequence of bytes that goes on a little behind the file. Several readers look at a
  limit only after they have read; with that room the model reads in the same order.
- Steps of threads are sequentially consistent, in the order that the barriers of the code give.

## What turned out

- A version word of the cache can come back: the last word of an update, with the lock flag, is
  also the first word of the next one (`AtomicCache.WordsThatRepeat` says exactly which). It does
  no harm: the contents are the same, and no other guarantee fails.
- A fresh cache entry answers keys (0, 0) with 0. The cache is right on every run if and only if
  that is the computed value (`AtomicCache.RightExactlyWhenZeroIsCached`).
- strcmp and dexUtf8Cmp disagree exactly when an encoded U+0000 meets a one-byte unit
  (`Mutf8.StrcmpAgrees`). Valid descriptors have no U+0000, which is why prototypes sort correctly.
- dexGetDexCodeSize counts two bytes of padding that the verifier does not, exactly when there is
  no try and an odd number of instruction units (`DexCatch.GetDexCodeSize`).
- The decoder keeps the start address of a local in 16 bits. The reported times of a register are
  free of overlap for every stream exactly in methods shorter than 65536 code units
  (`DebugInfo.ReportedApartExactly`).
- The decoder compares registers with `>`, so the register equal to their number gets through and the
  table is left. Acceptance is enough for no method (`DebugVerify.AcceptedLeavesTheTable`); an accepted
  item stays inside exactly if no operation up to the one that stops the decoder names that register
  (`DebugVerify.AcceptedIsDecodable`).
- The verifier of debug information reads opcodes without a look at the limit. What stands behind the
  file matters exactly if the walk comes to its end (`DebugVerify.FileDecidesExactly`).
- The verifier reads the argument of DBG_SET_FILE and the decoder does not. They find the same opcodes
  in an accepted stream exactly if there is none (`DebugVerify.BoundariesAgreeExactly`), and the
  argument byte decides whether the end is swallowed (`DebugVerify.SwallowsTheEndExactly`).
- The verifier compares the type of a local with the number of strings. Accepted streams stay within
  the type table exactly in files that have no more strings than types
  (`DebugVerify.TypesInRangeExactly`).
- An index payload cut off by the end of the file is read as zero without being consumed, and
  accepted. Acceptance means a tree exactly if that happens nowhere on the walk
  (`EncodedValue.AcceptedIsTreeExactly`), which can only be in the last three bytes of the file
  (`EncodedValue.TruncatedIndexIsAccepted`).
- The size of the one allocation for class data may wrap around. Everything stays inside for every
  item with a given header exactly if it does not (`ClassData.HeaderDecides`), and for a given item
  exactly if what is stored before the first invalid number fits (`ClassData.InsideExactly`); ten bytes
  suffice to leave it (`ClassData.AllocationWraps`). Accepted items shorter than 2^30 - 8 bytes stay inside.
- The verifier of signed LEB128 numbers takes a fifth byte above 0x0f for garbage, which is where the
  sign of a large negative number stands. Written numbers are valid exactly from -2^27 on
  (`Leb128.SignedRoundTrip`).
- SHA1Update adds the length to the buffered octets in 32 bits, and its last copy stays in the buffer
  exactly if that does not wrap (`Sha1.CopyStaysExactly`).
- The assertions and the lock of the cache hold in all runs of fewer than 2^30 updates of an entry, and
  not in all runs of 2^30 (`AtomicCache.SafeExactlyBelow`).
- dvmSetInitialBits, described as setting bits only, clears the rest of the last word it writes
  (`BitVectors.BitVector.SetInitialBits` says when that loses a member); the model follows the code.

## Model

| member | source | states |
|---|---|---|
| Sha1.DigestOfPieces | libdex/sha1.cpp:282-312 | hashing a message in any pieces, one update per piece, gives RFC 3174's SHA-1 of the whole message |
| Sha1.Sha1Context.constructor | libdex/sha1.cpp:201-210 | the initial state stands for the empty message |
| Sha1.Sha1Context.Update | libdex/sha1.cpp:215-236 | for every length whose sum with the buffered octets fits 32 bits: the state has absorbed the whole blocks of everything seen, the buffer starts with the rest, the two counter words hold 8 times the octets modulo 2^64 |
| Sha1.CopyStaysExactly | libdex/sha1.cpp:223-235 | the last copy of an update stays in the 64 octets of the buffer if and only if that sum does not wrap |
| Sha1.Sha1Context.Final | libdex/sha1.cpp:241-276 | the padding loop ends, the digest is SHA-1 of everything seen, and the context is wiped |
| Sha1.Sha1Context.AddPadding | libdex/sha1.cpp:251-257 | the three kinds of update inside the final call append exactly the padding of section 4 of RFC 3174 |
| Sha1.Sha1Context.AtLengthField | libdex/sha1.cpp:252-255 | the test on bits 3 to 8 of the low counter word says that the message length is 56 modulo 64 |
| Sha1.SHA1Transform | libdex/sha1.cpp:135-196 | for every state and block the new state is the compression of section 6.1 of RFC 3174 |
| Sha1.RunRounds | libdex/sha1.cpp:149-181 | the 80 unrolled macros with rotated registers give the registers after 80 rounds |
| Sha1.Blk0 | libdex/sha1.cpp:117-118 | the byte-swapped word is the schedule word of its round, kept in place |
| Sha1.Blk | libdex/sha1.cpp:122-123 | the word computed from four places of the 16-word circle is the schedule word, and takes the place of the one 16 rounds older |
| Sha1.SwapIsBigEndian | libdex/sha1.cpp:117-118 | two rotations and masks turn a little-endian load into a big-endian word |
| Sha1.ChooseIsF | libdex/sha1.cpp:126-127 | ((x ^ y) & w) ^ y is the choice function of rounds 0 to 19 |
| Sha1.MajorityIsF | libdex/sha1.cpp:129 | the rewritten majority is the function of rounds 40 to 59 |
| Sha1.MacroStep | libdex/sha1.cpp:126-130 | adding to z and rotating w in place is one step of the RFC on renamed registers |
| Sha1.ReplaceOldest | libdex/sha1.cpp:122-123 | overwriting one slot keeps the invariant that the circle holds the last 16 schedule words |
| Sha1.CounterAdds | libdex/sha1.cpp:220-222 | wrapping addition with carry keeps the counter equal to 8 times the octets modulo 2^64 |
| Sha1.TransformWhole | libdex/sha1.cpp:223-231 | completing the buffer and hashing whole blocks of the input chains exactly those blocks |
| Sha1.BufferRestarts | libdex/sha1.cpp:233-235 | after whole blocks the rest of the input starts the buffer |
| Sha1.BufferGrows | libdex/sha1.cpp:232-235 | with no block completed the input joins the buffered octets |
| Sha1.FinalCount | libdex/sha1.cpp:246-250 | the eight counter octets are the RFC's length field |
| Sha1Spec.OctetsMakeWord | libdex/sha1.cpp:259-262 | the octets that are put into the digest are those of the words, most significant first: together they make the word |
| Sha1.ReadDigest | libdex/sha1.cpp:259-262 | the loop over twenty octets gives the digest of the five words |
| Sha1.TransformRest | libdex/sha1.cpp:228-231 | the loop over whole blocks of the input chains exactly the blocks up to the last whole one |
| AtomicCache.RunInv | vm/AtomicCache.cpp:86-162 | the inductive invariant holds in every state of every run of any number of threads |
| AtomicCache.InvStep | vm/AtomicCache.cpp:86-162 | one load, store or compare-and-swap of any thread keeps the invariant |
| AtomicCache.LookupIsRight | vm/AtomicCache.h:95-143 | a finished lookup for keys other than (0, 0) returns the computed value, never a mixture of two updates |
| AtomicCache.RightExactlyWhenZeroIsCached | vm/AtomicCache.cpp:49-51 | every lookup of every run is right if and only if computing keys (0, 0) gives 0, because a fresh entry is all zero |
| AtomicCache.WriterSide | vm/AtomicCache.cpp:108-161 | in every run there is at most one updater, an unlocked version is even, the assertions hold, and the closing compare-and-swap never fails |
| AtomicCache.CounterGrows | vm/AtomicCache.cpp:125-161 | the version counter never goes back, and while it stands at an even value keys and value stand still |
| AtomicCache.CounterMoves | vm/AtomicCache.cpp:125-150 | keys and value change only while the version is odd and locked |
| AtomicCache.OneMoreUpdateTramplesTheFlag | vm/AtomicCache.cpp:104-154 | the assertion before the unlock holds if and only if the update did not start at the last even version below the flag |
| AtomicCache.ReachTrampled | vm/AtomicCache.cpp:104-154 | a run of 2^30 - 1 updates and one more, step by step: the version word loses the flag and the assertion before the unlock fails |
| AtomicCache.SafeExactlyBelow | vm/AtomicCache.cpp:108-161 | the writer side is safe in all runs of up to so many updates if and only if that is fewer than 2^30 |
| AtomicCache.OnlyLockedEvenWordsRepeat | vm/AtomicCache.cpp:108-161 | a version word that comes back is an even locked one, with its own unlocked form in between and unchanged contents |
| AtomicCache.SameWordTwice | vm/AtomicCache.cpp:108-161 | a word at two ticks of the entry but not between them is the last of one update and the first of the next |
| AtomicCache.WordsThatRepeat | vm/AtomicCache.cpp:108-161 | the words that some run repeats are exactly the even ones above the bare lock flag: the last word of an update is the first of the next |
| AtomicCache.WaitFree | vm/AtomicCache.h:95-143 | in every run, safe or not, a call that has begun returns within nine more steps of its own thread, whatever the other threads do |
| AtomicCache.HitExactly | vm/AtomicCache.h:105-130 | an undisturbed lookup of the keys in the entry gives its value as a hit, or computes it if the version is odd, and writes nothing |
| AtomicCache.MissFills | vm/AtomicCache.cpp:108-161 | an undisturbed lookup of other keys in an unlocked entry leaves exactly these keys, the computed value and the next even version |
| AtomicCache.MissOfLocked | vm/AtomicCache.cpp:108-120 | in a locked entry it computes the value and writes nothing |
| AtomicCache.SecondLookupHits | vm/AtomicCache.h:95-143 | what one lookup has computed the next one of the same keys finds in the entry |
| StripedMutexes.Linearizable | vm/Atomic.cpp:192-243 | in every run, with 64-bit accesses split into words, each finished call has one event inside its call; there a swap or a load returned what was in memory, and a compare-and-swap reports failure exactly if the value was not the expected one, and then changes nothing |
| StripedMutexes.RealTimeOrder | vm/Atomic.cpp:192-243 | a call that returned before another began comes first in the order of the address |
| StripedMutexes.EventsHaveCalls | vm/Atomic.cpp:192-243 | every event was added by a step inside a call of that operation on that address, begun before |
| StripedMutexes.ValuesAreConserved | vm/Atomic.cpp:196-232 | on an address nobody is storing to: the first value and all stored values are the replaced values and the one in memory, as multisets, compare-and-swaps included |
| StripedMutexes.AloneReturns | vm/Atomic.cpp:192-243 | a call on an address with a free lock that is left alone returns within seven steps, keeps its promise on the memory itself, frees the lock and touches no other address |
| StripedMutexes.LocksHeldInside | vm/Atomic.cpp:192-243 | in every run a held lock is held by a thread inside a call on one of its addresses |
| StripedMutexes.InsideReturns | vm/Atomic.cpp:192-243 | that thread frees it within five steps of its own |
| StripedMutexes.CanReturn | vm/Atomic.cpp:192-243 | no deadlock: after any run any call that has begun can return within eleven more steps |
| StripedMutexes.RunInv | vm/Atomic.cpp:192-243 | the locking invariant in every state of every run |
| StripedMutexes.LockOf | vm/Atomic.cpp:192-194 | every address has one of the 32 locks |
| CasLoop.Linearizable | vm/Atomic.cpp:121-157 | the same of the compare-and-swap versions, of which the swap is a retry loop with a plain load in two steps |
| CasLoop.RealTimeOrder | vm/Atomic.cpp:121-157 | a call that returned before another began comes first in the order |
| CasLoop.EventsHaveCalls | vm/Atomic.cpp:129-137 | every event was added by a step that ended a call of that operation, begun before |
| CasLoop.ValuesAreConserved | vm/Atomic.cpp:121-148 | the first value and all stored values are the replaced values and the one in the cell, as multisets |
| CasLoop.SwapReturns | vm/Atomic.cpp:129-137 | from any point of the loop, with whatever stale value, a swap that is left alone returns within five steps and keeps its promise on the cell |
| CasLoop.OneStepReturns | vm/Atomic.cpp:139-157 | the other two operations return in one step and keep theirs |
| QuasiAtomicSpec.PromisesKept | vm/Atomic.h:31-60 | in any legal log every swap, compare-and-swap and load does and returns what its operation promises, between the values before and after it |
| QuasiAtomicSpec.ValuesConserved | vm/Atomic.cpp:121-148 | in any legal log nothing is lost or invented: what is stored is replaced once or is the final value |
| Leb128.ReadUnsignedLeb128 | libdex/Leb128.h:31-59 | the nested reads compute the value of the encoding modulo 2^32 and its length |
| Leb128.ReadSignedLeb128 | libdex/Leb128.h:66-102 | the shifts up and down compute the two's complement value of the groups |
| Leb128.ReadAndVerifyUnsignedLeb128 | libdex/Leb128.cpp:32-43 | the flag stays up exactly for an encoding inside the limit, if one is given, whose fifth byte fits; the read comes first |
| Leb128.ReadAndVerifySignedLeb128 | libdex/Leb128.cpp:54-65 | the same for signed numbers |
| Leb128.WriteUnsignedLeb128 | libdex/Leb128.h:133-147 | writes the shortest encoding in place and nothing else |
| Leb128.UnsignedLeb128Size | libdex/Leb128.h:152-162 | the length of the shortest encoding |
| Leb128.RoundTrip | libdex/Leb128.h:133-162 | every written u4 is read back in full and as valid, wherever it stands |
| Leb128.EncodeLength | libdex/Leb128.h:152-162 | the length of an encoding, by thresholds of the value |
| Leb128.SignedRoundTrip | libdex/Leb128.h:66-102 | a written signed number is read back in full, and is valid, inside the limit, if and only if it is not below -2^27 |
| Leb128.EncodeSignedLength | libdex/Leb128.h:66-102 | the lengths of signed encodings and their exact ranges |
| Mutf8.GetUtf16FromUtf8 | libdex/DexUtf.h:40-63 | the decoder computes one code unit and advances over one, two or three bytes |
| Mutf8.DecodeUnit | libdex/DexUtf.h:40-63 | decoding inverts encoding, for every 16-bit unit |
| Mutf8.Utf8Cmp | libdex/DexUtf.cpp:28-47 | the comparison loop computes the lexicographic order of the UTF-16 units |
| Mutf8.OneString | libdex/DexUtf.h:40-63 | a place in memory holds at most one string: decoding is injective |
| Mutf8.StrcmpAgrees | libdex/DexUtf.cpp:28-47 | strcmp has the sign of dexUtf8Cmp if and only if no encoded U+0000 meets a one-byte unit at the first difference |
| Mutf8.CheckUnit | libdex/DexSwapVerify.cpp:1870-1950 | the switch on the high bits accepts what the pure check accepts |
| Mutf8.CheckedUnitSound | libdex/DexSwapVerify.cpp:1870-1950 | only shortest encodings pass |
| Mutf8.CheckedUnitComplete | libdex/DexSwapVerify.cpp:1870-1950 | every shortest encoding passes |
| Mutf8.IntraVerifyStringDataItem | libdex/DexSwapVerify.cpp:1860-1958 | the whole loop, with the limits it checks too late, computes the specification |
| Mutf8.StringDataItemIff | libdex/DexSwapVerify.cpp:1860-1958 | together with the bounds check of the walk it accepts exactly a valid count, that many encoded units and a NUL |
| Lexicographic.OrderTransitive | libdex/DexUtf.cpp:28-47 | the order is transitive |
| Lexicographic.OrderZero | libdex/DexUtf.cpp:28-47 | zero exactly for equal sequences |
| Lexicographic.OrderMeaning | libdex/DexUtf.cpp:28-47 | the comparison is negative exactly in dictionary order: at the first difference the unit is smaller or the string ends |
| Lexicographic.OrderAntisymmetric | libdex/DexUtf.cpp:28-47 | the order is antisymmetric |
| DexUtf.IsValidMemberNameUtf8 | libdex/DexUtf.h:84-99 | accepts exactly the name characters and stops behind one |
| DexUtf.IsValidMemberNameUtf8_0 | libdex/DexUtf.cpp:58-112 | the same for characters outside ASCII, surrogate pairs included |
| DexUtf.LowAsciiMeaning | libdex/DexUtf.cpp:50-55 | the bit table is letters, digits, dollar, hyphen and underscore |
| DexUtf.IsValidTypeDescriptorOrClassName | libdex/DexUtf.cpp:151-260 | the byte loop decides what the recogniser on units decides |
| DexUtf.CheckBody | libdex/DexUtf.cpp:213-260 | the loop over a class name with its sepOrFirst flag |
| DexUtf.BodyIsClassName | libdex/DexUtf.cpp:213-260 | that loop accepts exactly non-empty names joined by the separator |
| DexUtf.BodyWithSemicolon | libdex/DexUtf.cpp:226-235 | inside a descriptor it wants one semicolon more, at the end |
| DexUtf.RecognisedIff | libdex/DexUtf.cpp:151-270 | the recogniser accepts exactly the grammar, for descriptors and class names and both separators |
| DexUtf.DescriptorShape | libdex/DexUtf.cpp:151-260 | what byte scans can rely on in a valid descriptor |
| DexUtf.DescriptorOrder | libdex/DexUtf.cpp:28-47 | on valid descriptors strcmp and dexUtf8Cmp have the same sign |
| IdTables.CrossVerifyStringIds | libdex/DexSwapVerify.cpp:557-577 | accepts exactly tables whose strings are known to the data map and whose neighbours ascend in the order of units |
| IdTables.CrossVerifyTypeIds | libdex/DexSwapVerify.cpp:590-611 | accepts exactly valid descriptors with ascending string indices |
| IdTables.CheckShorty | libdex/DexSwapVerify.cpp:671-702 | in a file of valid types accepts exactly shorties that spell the prototype: one character per type, no parameter void |
| IdTables.MatchesExactly | libdex/DexSwapVerify.cpp:625-669 | shortyDescMatch accepts a valid descriptor exactly for the character of its type, which is the descriptor itself for a primitive or void and L for a class or an array, and void only as a return type |
| IdTables.ShortyFitsExactly | libdex/DexSwapVerify.cpp:671-702 | over the grammar of descriptors: the shorty fits if and only if it is one such character per type |
| IdTables.CheckProtoOrder | libdex/DexSwapVerify.cpp:704-758 | accepts exactly when the previous key is smaller |
| IdTables.CrossVerifyProtoIdItem | libdex/DexSwapVerify.cpp:671-761 | one prototype: accepted exactly if its parameter list is known, its shorty fits and the one before is smaller |
| IdTables.CrossVerifyProtoIds | libdex/DexSwapVerify.cpp:671-761 | accepts exactly tables whose parameter lists are known to the data map, whose shorties spell their prototypes, and that ascend strictly by return type and parameters |
| IdTables.ProtosInOrderExactly | libdex/DexSwapVerify.cpp:671-761 | both checks everywhere mean that every shorty spells its prototype and neighbours are in dictionary order |
| IdTables.ParameterIterator.constructor | libdex/DexProto.cpp:481-490 | the cursor starts before the first parameter of the prototype |
| IdTables.ParameterIterator.NextIndex | libdex/DexProto.cpp:496-508 | gives the parameters one by one and then no index for ever |
| DexProto.ProtoCompare | libdex/DexProto.cpp:254-325 | the comparison orders prototypes, of one file or two, by return type and then by the list of parameter descriptors |
| DexProto.CrossVerifyIds | libdex/DexSwapVerify.cpp:557-761 | the three passes accept exactly files in order whose strings and parameter lists are known to the data map; in these every type is valid and every shorty spells its prototype |
| DexProto.TypeIndexOrder | libdex/DexSwapVerify.cpp:557-611 | in a verified file type indices are ordered as strcmp orders their descriptors |
| DexProto.ListIndexOrder | libdex/DexSwapVerify.cpp:671-761 | and lists of type indices as the lists of descriptors |
| DexProto.ListOrderMeaning | libdex/DexProto.cpp:265-308 | the order of lists of descriptors is that of a dictionary of strings |
| DexProto.PositionIsRank | libdex/DexSwapVerify.cpp:557-761 | in a verified file the sign of i - j is that of dexProtoCompare of prototypes i and j |
| DexProto.MethodDescriptorNextType | libdex/DexProto.cpp:349-371 | finds the end of the type in front, or fails |
| DexProto.UniqueParse | libdex/DexProto.cpp:349-371 | concatenated descriptors parse in only one way |
| DexProto.CompareType | libdex/DexProto.cpp:419-432 | the character loop orders one type against one piece of the descriptor |
| DexProto.ProtoCompareToParameterDescriptors | libdex/DexProto.cpp:380-440 | orders the parameters of a prototype against a concatenation, bare or in parentheses |
| DexProto.ProtoCompareToDescriptor | libdex/DexProto.cpp:443-458 | orders a prototype against a method descriptor as if that were a prototype |
| DexProto.DescriptorLength | libdex/DexProto.cpp:133-147 | the length computed first is the one that is written |
| DexProto.ProtoGetMethodDescriptor | libdex/DexProto.cpp:133-165 | the buffer holds exactly the descriptor and its NUL |
| DexProto.CompareThroughDescriptor | libdex/DexProto.cpp:443-458 | comparing a prototype with the descriptor built from one of the same or another file has the sign of comparing the two prototypes |
| DexProto.CompareVerified | libdex/DexProto.cpp:443-458 | which holds for every prototype of a verified file; within one the sign is that of the positions |
| DexProto.ValidIsShaped | libdex/DexProto.cpp:349-371 | valid descriptors are enough for it, whatever the rest of their file is like |
| DataMap.DexDataMap.constructor | libdex/DexDataMap.cpp:28-56 | an empty map of the given capacity |
| DataMap.DexDataMap.Add | libdex/DexDataMap.cpp:74-88 | appends an entry above the last one and drops any other |
| DataMap.DexDataMap.Get | libdex/DexDataMap.cpp:94-118 | the binary search gives the type at the offset, or -1 exactly if there is none |
| DataMap.DexDataMap.Verify | libdex/DexDataMap.cpp:125-141 | true exactly for a recorded pair |
| DataMap.DexDataMap.Verify0Ok | libdex/DexDataMap.h:65-71 | true also for offset zero |
| DataMap.OneTypePerOffset | libdex/DexDataMap.cpp:94-141 | an answer of Get settles Verify for every type |
| SectionWalk.ScanMap | libdex/DexSwapVerify.cpp:395-467 | the loop accepts exactly ascending, known, unrepeated sections inside the file with no more data items than data bytes, and counts those items |
| SectionWalk.RequiredSectionsPresent | libdex/DexSwapVerify.cpp:469-515 | the checks after the loop |
| SectionWalk.SwapMap | libdex/DexSwapVerify.cpp:395-523 | accepts exactly good maps, and the data map's capacity is the number of data items announced |
| SectionWalk.IterateSection | libdex/DexSwapVerify.cpp:2387-2451 | the item loop visits the items of the section, which `SectionIsWalked` gives explicitly, and records every item of an itemized type |
| SectionWalk.VisitSection | libdex/DexSwapVerify.cpp:2513-2680 | one case of the switch, with its bounds |
| SectionWalk.SkipZeros | libdex/DexSwapVerify.cpp:2398-2412 | padding is passed only inside the file and only over zeros |
| SectionWalk.SwapEverythingButHeaderAndMap | libdex/DexSwapVerify.cpp:2513-2680 | the walk over all sections; the data map receives every itemized item, nothing is dropped, the capacity suffices |
| SectionWalk.SwapMapAndItems | libdex/DexSwapVerify.cpp:2911-2912 | both passes over the map accept exactly files with a good map and a layout: items of the announced number, each accepted by its visitor, strings, class data, debug info, annotations and arrays one behind the other, all others at the next multiple of four over zeros, inside their sections; exactly the items of the layout are indexed |
| SectionWalk.WalkedExactly | libdex/DexSwapVerify.cpp:2513-2680 | the walk accepts exactly the files that have a layout, and its items are those of any layout |
| SectionWalk.LayoutIsWalked | libdex/DexSwapVerify.cpp:2513-2680 | a file with given spans, laid out as the format says, is accepted with exactly these spans as its items |
| SectionWalk.WalkedIsLayout | libdex/DexSwapVerify.cpp:2513-2680 | an accepted file has such spans |
| SectionWalk.SectionIsWalked | libdex/DexSwapVerify.cpp:2387-2451 | the same for one section |
| SectionWalk.RowIsWalked | libdex/DexSwapVerify.cpp:2387-2440 | and for a row of items |
| SectionWalk.AlignedFollows | libdex/DexSwapVerify.cpp:2549-2668 | the alignment passed for each type is 4 or 1 as its items stand: at the next multiple of four over zeros, or at once |
| SectionWalk.TypesAreListed | libdex/DexSwapVerify.cpp:344-393 | the ranges of types in the code are the listed id sections, itemized sections and data sections |
| SectionWalk.WalkEndsInFile | libdex/DexSwapVerify.cpp:2513-2680 | the last end of an accepted file is in the file, whatever size the header claims for itself |
| SectionWalk.WalkTiles | libdex/DexSwapVerify.cpp:2387-2680 | in an accepted file all items stand in ascending, disjoint, aligned ranges and every other byte up to the last end is zero |
| SectionWalk.TilesDisjoint | libdex/DexSwapVerify.cpp:2387-2440 | any earlier item ends before any later one starts |
| SectionWalk.EntryIsItem | libdex/DexSwapVerify.cpp:2427-2429 | the recorded pairs are exactly the start and type of the itemized items |
| SectionWalk.LookupFindsItems | libdex/DexDataMap.cpp:94-118 | after an accepted walk a lookup answers a type at exactly the item starts and -1 elsewhere |
| SectionWalk.WalkVisited | libdex/DexSwapVerify.cpp:2387-2680 | in an accepted walk every item but the header and the map was accepted by the visitor of its type, up to its end in the file |
| SectionWalk.EntryVisited | libdex/DexSwapVerify.cpp:2427-2429 | so was whatever the index knows |
| ItemVisitors.IndexedCode | libdex/DexSwapVerify.cpp:2631-2635 | wherever the index has a code item an aligned one was accepted, which is what the lookup of handlers and the code size ask for |
| ItemVisitors.IndexedString | libdex/DexSwapVerify.cpp:2636-2641 | wherever the index has a string there is exactly one sequence of units that stands there with its count and NUL inside the file |
| ItemVisitors.FileHasStrings | libdex/DexSwapVerify.cpp:557-577 | if the index knows all offsets of string_ids, the bytes of the file determine the strings that the order checks compare |
| ItemVisitors.GetStringData | libdex/DexFile.h:614-622 | skipping bytes above 0x7f stops behind a valid count |
| ItemVisitors.VisitorAdvances | libdex/DexSwapVerify.cpp:2601-2660 | the item checks for strings, code, debug information, annotations and arrays are visitors that advance, as the walk demands |
| ItemVisitors.IntraVerifyAnnotationItem | libdex/DexSwapVerify.cpp:2344-2362 | a known visibility and an annotation |
| DexCatch.VerifyHandler | libdex/DexSwapVerify.cpp:1656-1719 | one handler list is accepted exactly when it parses, up to the same end; `HandlerRead` says what parses |
| DexCatch.SetHandlerOffsAndVerify | libdex/DexSwapVerify.cpp:1648-1722 | all handler lists, their offsets in the array, and the end or zero |
| DexCatch.SwapTries | libdex/DexSwapVerify.cpp:1757-1795 | the try table is accepted exactly when ranges are ordered, inside the code, and point at parsed handlers |
| DexCatch.SwapTriesAndCatches | libdex/DexSwapVerify.cpp:1726-1798 | computes the specification of tries and handlers |
| DexCatch.SwapCodeItem | libdex/DexSwapVerify.cpp:1801-1857 | computes the specification of a whole code item |
| DexCatch.AcceptedInOrder | libdex/DexSwapVerify.cpp:1757-1795 | neighbour checks make every earlier try end before every later one |
| DexCatch.FindCatchHandlerOffset0 | libdex/DexCatch.cpp:52-81 | the binary search equals the linear scan at every address, with empty tries in the table too |
| DexCatch.FindOffset | libdex/DexCatch.h:120-146 | none, one or many tries: the same linear scan |
| DexCatch.AcceptedHandlers | libdex/DexSwapVerify.cpp:1726-1798 | in an accepted item whatever covers an address leads to a handler the verifier parsed |
| DexCatch.FindCatchHandler | libdex/DexCatch.h:120-160 | the iterator stands in front of exactly that handler's clauses, or there is none and nothing covers the address |
| DexCatch.CatchIterator.constructor | libdex/DexCatch.h:65-79 | what is to come is what the verifier parsed at that place |
| DexCatch.CatchIterator.Next | libdex/DexCatch.h:90-106 | gives the next parsed clause, the catch-all last, and then none |
| DexCatch.CatchIterator.GetEnd | libdex/DexCatch.cpp:85-90 | draining leads to the end the verifier found |
| DexCatch.HandlersAt | libdex/DexCatch.h:82-160 | looking an address up and draining the iterator gives the clauses the verifier parsed for the first covering try |
| DexCatch.GetFirstHandlerOffset | libdex/DexCatch.cpp:26-37 | the place behind the count, or zero |
| DexCatch.GetHandlersSize | libdex/DexCatch.cpp:40-48 | the count, or zero |
| DexCatch.SumOfHandlers | libdex/DexFile.cpp:510-514 | the loop of iterators ends where the verifier ended |
| DexCatch.SizeWithTries | libdex/DexFile.cpp:493-524 | with tries the length is the verifier's |
| DexCatch.GetDexCodeSize | libdex/DexFile.cpp:493-524 | equals the verifier's length if and only if there is a try or an even number of instruction units; otherwise it is two more |
| DexCatchWrite.ClausesRead | libdex/DexSwapVerify.cpp:1680-1715 | written pairs of a type and an address, and the address of a catch-all, are parsed back |
| DexCatchWrite.HandlerRead | libdex/DexSwapVerify.cpp:1656-1719 | wherever a list of typed clauses with an optional catch-all is written as n or -n, zero included, it parses to exactly these clauses, the catch-all last, up to the byte behind it |
| DexCatchWrite.ListsRead | libdex/DexSwapVerify.cpp:1648-1722 | lists written one after the other parse one after the other, at their own places |
| DexCatchWrite.TriesAreAccepted | libdex/DexSwapVerify.cpp:1757-1795 | written tries, of three fields of 4, 2 and 2 bytes, that are in order and point at lists are accepted |
| DexCatchWrite.CodeAccepted | libdex/DexSwapVerify.cpp:1801-1857 | a legal code item is accepted wherever it is written, up to its end |
| DexCatchWrite.LookupRead | libdex/DexCatch.h:120-160 | an address in such an item leads to the list that was written for the try around it, and to none if there is no try |
| DexCatchWrite.WrittenHandlers | libdex/DexCatch.h:82-160 | the lookup and the iterator give the caller the clauses that were written for the try around the address, the catch-all last, or nothing |
| Words.RoundUpPower2 | libdex/DexFile.cpp:531-542 | the least power of two not below the value, and zero for zero or when none fits 32 bits |
| Words.SpreadFurther | libdex/DexFile.cpp:534-538 | one shift-and-or doubles the reach of every bit |
| Words.MaskIsRemainder | libdex/DexFile.cpp:184-196 | masking with a power of two less one is the remainder |
| Probing.AddKeeps | libdex/DexFile.cpp:177-204 | the first free slot keeps every entry behind older ones on its own path |
| Probing.FindsFree | libdex/ZipArchive.cpp:105-119 | with more slots than entries every probe meets a free slot |
| Probing.ProbeIsLinearSearch | libdex/DexFile.cpp:441-474 | where a probe stops is the answer of a linear search in order of insertion, for any hash collisions |
| CStrings.SameString | libdex/DexFile.cpp:464-465 | the string comparison of the lookup |
| ClassLookup.ClassDescriptorHash | libdex/DexFile.cpp:163-171 | the multiply-by-31 hash in 32 bits, from 1; `HashIsBase31` says which number that is |
| CStrings.HashIsBase31 | libdex/DexFile.cpp:163-171 | the hash is the string read as a number in base 31, with the start value as a digit in front, in 32 bits |
| ClassLookup.DexClassLookup.constructor | libdex/DexFile.cpp:229-238 | an empty table holds no class |
| ClassLookup.DexClassLookup.Add | libdex/DexFile.cpp:177-204 | the probe loop ends and the table holds one class more, the ones before untouched |
| ClassLookup.DexClassLookup.FreeSlot | libdex/DexFile.cpp:184-197 | the first free slot on the path of the hash |
| ClassLookup.DexClassLookup.Find | libdex/DexFile.cpp:441-474 | the probe loop ends and gives the first class of that descriptor in file order, or none |
| ClassLookup.CreateClassLookup | libdex/DexFile.cpp:211-262 | the table holds all classes and keeps a slot free; without a class it has no slot at all |
| ClassLookup.FindClass | libdex/DexFile.cpp:211-474 | looking a descriptor up in the index of a file gives the first class in file order with that descriptor, and none exactly if there is none |
| ZipArchive.ComputeHash | libdex/ZipArchive.cpp:92-100 | the hash of a counted string |
| ZipArchive.Archive.constructor | libdex/ZipArchive.cpp:281-290 | an empty index |
| ZipArchive.Archive.AddToHash | libdex/ZipArchive.cpp:105-119 | the index holds one record more, in directory order |
| ZipArchive.Archive.FreeSlot | libdex/ZipArchive.cpp:105-116 | the first free slot on the path of the hash |
| ZipArchive.Archive.FindEntry | libdex/ZipArchive.cpp:425-444 | the slot of the first directory record with exactly that name, or zero |
| ZipArchive.Archive.EntryToIndex | libdex/ZipArchive.cpp:77-87 | rejects exactly handles that name no taken slot |
| ZipArchive.Archive.GetEntryInfo | libdex/ZipArchive.cpp:479-515 | steps back from the name to the fields of its own record |
| ZipArchive.Archive.Lookup | libdex/ZipArchive.cpp:425-515 | what is found by name is described by the first record that has it |
| ZipArchive.ParseZipArchive | libdex/ZipArchive.cpp:274-334 | succeeds exactly if every record of the directory is well formed, and then the index holds all of them with a slot free |
| ZipArchive.WalkStep | libdex/ZipArchive.cpp:297-328 | one record decides between failure and the walk from the next one |
| ZipArchive.WalkIsChain | libdex/ZipArchive.cpp:297-328 | the walk succeeds exactly over records without a gap that start with the signature, end in the directory by their three lengths, and whose local header is not behind it |
| ZipArchive.RefusedExactly | libdex/ZipArchive.cpp:297-328 | a directory is refused exactly if there is no such chain of the announced length |
| ZipWrite.FieldsRead | libdex/ZipArchive.cpp:53-63 | every field of a written record is read back at its own place |
| ZipWrite.DirectoryRead | libdex/ZipArchive.cpp:274-334 | a written directory is walked to its end over exactly its records |
| ZipWrite.OpenAndLookup | libdex/ZipArchive.cpp:274-515 | opening a written directory and asking for a name gives the fields of the first record written with that name, or nothing exactly if there is none |
| DebugInfo.DecodedInOrder | libdex/DexDebugInfo.cpp:141-334 | for every well-formed stream whose addresses stay in the method: positions ascend, locals come by ascending end, the times of a register do not overlap, and each beginning is reported exactly once, however decoding ended |
| DebugHistory.DecodedIsHistory | libdex/DexDebugInfo.cpp:112-334 | over the executed operations alone: the locals callback gets the intervals that an end or a new start closes, in order, then those still open, each with the address of the last start or restart of its register and the texts of the last start or of its parameter; the positions callback gets the sums of the deltas at every special opcode |
| DebugHistory.BeginningsReported | libdex/DexDebugInfo.cpp:112-334 | each beginning is reported once: the reported pairs of a register and a start address are those of this and the named parameters at 0, one for each start, and one for each restart of a register that an end had closed |
| DebugHistory.ExecutedKept | libdex/DexDebugInfo.cpp:141-309 | every executed operation keeps the table of registers to that history |
| DebugHistory.StepKept | libdex/DexDebugInfo.cpp:208-307 | one operation keeps the whole state, registers, calls and positions, to the history |
| DebugHistory.ParametersAre | libdex/DexDebugInfo.cpp:151-206 | the parameters begin at address 0 in their registers, with the names that stand in the item |
| DebugHistory.SpecialIsDelta | libdex/DexDebugInfo.cpp:290-303 | a special opcode stands for every pair of an address delta and a line delta from -4 to 10 |
| DebugInfo.ReportedApartExactly | libdex/DexDebugInfo.cpp:112-130 | the times as reported, with a 16-bit start, are free of overlap for every stream if and only if the method is shorter than 65536 code units |
| DebugInfo.LongMethodsOverlap | libdex/DexDebugInfo.cpp:112-130 | a stream that makes them overlap in any longer method |
| DebugInfo.ShortMethodsAreApart | libdex/DexDebugInfo.cpp:112-130 | no stream does in a shorter one |
| DebugInfo.DecodeDebugInfo | libdex/DexDebugInfo.cpp:312-334 | the callbacks get exactly the positions and locals of the state machine |
| DebugInfo.DecodeDebugInfo0 | libdex/DexDebugInfo.cpp:141-309 | the opcode loop is a run of the state machine |
| DebugInfo.DecodeParameters | libdex/DexDebugInfo.cpp:151-177 | the method's own object and the named parameters begin as specified |
| DebugInfo.DecodeNames | libdex/DexDebugInfo.cpp:178-206 | the loop over parameters, wide ones taking two registers |
| DebugInfo.Execute | libdex/DexDebugInfo.cpp:208-307 | as the history has it (`DebugHistory.StepKept`) one operation is one transition, on the table of registers and the callbacks |
| DebugInfo.ExecutedExactly | libdex/DexDebugInfo.cpp:208-307 | of a stream that is readable to its end a prefix is executed inside the table, if and only if no operation up to the one that stops names the register behind it |
| DebugInfo.ReadOp | libdex/DexDebugInfo.cpp:208-290 | the opcode and its arguments |
| DebugInfo.ReadStringIdx | libdex/DexDebugInfo.cpp:84-94 | an index less one, or none for zero |
| DebugInfo.ReadTypeIdx | libdex/DexDebugInfo.cpp:100-110 | the same for types |
| DebugInfo.EmitLocalCbIfLive | libdex/DexDebugInfo.cpp:120-130 | one call for a live register and none for another |
| DebugInfoSpec.StepKeeps | libdex/DexDebugInfo.cpp:208-307 | every operation keeps order, separation and conservation, and advances the address by its own amount |
| DebugInfoSpec.RunKeeps | libdex/DexDebugInfo.cpp:208-307 | so does every run within the method |
| DebugInfoSpec.FinishedInOrder | libdex/DexDebugInfo.cpp:331-333 | the last loop reports every register that is still live and leaves the promise of the header file true |
| DebugVerify.IntraVerifyDebugInfoItem | libdex/DexSwapVerify.cpp:1961-2100 | computes the specification of header, parameter names and operations, wherever the walk stops in readable memory, as it does unless it comes to the end of the file |
| DebugVerify.VerifyOp | libdex/DexSwapVerify.cpp:2003-2095 | the switch over the opcodes, DBG_SET_FILE with its argument |
| DebugVerify.VerifyIndex | libdex/DexSwapVerify.cpp:2025-2036 | an index of a string, with 1 added, or zero |
| DebugVerify.VerifyReg | libdex/DexSwapVerify.cpp:2018-2024 | a register below 65536 |
| DebugVerify.SameReading | libdex/DexDebugInfo.cpp:208-307 | apart from DBG_SET_FILE the decoder reads an operation as the verifier did, and no register number is cut off |
| DebugVerify.AcceptedOps | libdex/DexSwapVerify.cpp:2002-2100 | accepted operations without DBG_SET_FILE are the decoder's, to their end, with every index in the range that was checked |
| DebugVerify.AcceptedNames | libdex/DexDebugInfo.cpp:178-206 | the decoder's loop over parameters never leaves the names that were verified |
| DebugVerify.AcceptedIsDecodable | libdex/DexSwapVerify.cpp:1961-2100 | an accepted item without DBG_SET_FILE meets the decoder's precondition if and only if its operations, up to the one that stops, stay in the table of registers; registers in range are enough |
| DebugVerify.RegItemAccepted | libdex/DexSwapVerify.cpp:2018-2024 | an item that ends one local is accepted for every 16-bit register |
| DebugVerify.AcceptedLeavesTheTable | libdex/DexDebugInfo.cpp:228-262 | for every method some accepted item leads the decoder behind the table: the register equal to their number |
| DebugVerify.NeverDecides | libdex/DexDebugInfo.cpp:290-303 | an accepted item keeps to the table for every callback if and only if it does for one that never ends the decoding |
| DebugVerify.FileDecidesExactly | libdex/DexSwapVerify.cpp:2002-2100 | the verdict depends on what stands behind the file if and only if the walk comes to the end of the file; otherwise it stops in memory |
| DebugVerify.SpecialsReachTheEnd | libdex/DexSwapVerify.cpp:2002-2004 | special opcodes up to the end of the file are such a stream |
| DebugVerify.EndsAgreeExactly | libdex/DexSwapVerify.cpp:2003-2095 | an accepted operation ends at the same place for the decoder if and only if it is not DBG_SET_FILE |
| DebugVerify.BoundariesAgreeExactly | libdex/DexSwapVerify.cpp:2002-2100 | in an accepted stream the decoder's opcodes are the verifier's, all of them and no others, if and only if there is no DBG_SET_FILE |
| DebugVerify.SwallowsTheEndExactly | libdex/DexDebugInfo.cpp:285-288 | with a DBG_SET_FILE of one byte before the end: the decoder stops at the verified end, before it, or only behind it, each for exactly the argument bytes given |
| DebugVerify.SetFileIsMisread | libdex/DexDebugInfo.cpp:285-288 | an accepted stream in which the decoder takes the argument for an opcode and the end for its register |
| DebugVerify.TypesInRangeExactly | libdex/DexSwapVerify.cpp:2031-2036 | every accepted stream names its types of locals within the type table if and only if the file has no more strings than types |
| DebugWrite.InstRead | libdex/DexSwapVerify.cpp:2003-2095 | every operation in range is accepted wherever it is written, up to its end, and is the one that the decoder reads |
| DebugWrite.StreamRead | libdex/DexSwapVerify.cpp:2002-2100 | so is every stream up to the byte behind its end; without a file to set the decoder reads exactly its operations |
| DebugWrite.NamesRead | libdex/DexSwapVerify.cpp:1982-2000 | written parameter names are accepted |
| DebugWrite.ItemRead | libdex/DexSwapVerify.cpp:1961-2100 | every legal item is accepted wherever it is written |
| BitVectors.BitVector.constructor | vm/BitVector.cpp:32-48 | an empty set with room for the bits asked for |
| BitVectors.BitVector.AllocBit | vm/BitVector.cpp:69-98 | adds and returns the least absent number, growing at most once; -1 exactly when full and fixed |
| BitVectors.BitVector.TryAllocBit | vm/BitVector.cpp:73-84 | the search through the words |
| BitVectors.BitVector.Resize | vm/BitVector.cpp:89-97 | growing changes no member |
| BitVectors.BitVector.SetBit | vm/BitVector.cpp:103-126 | adds the number, growing as far as needed |
| BitVectors.BitVector.ClearBit | vm/BitVector.cpp:131-136 | removes the number |
| BitVectors.BitVector.ClearAllBits | vm/BitVector.cpp:141-145 | removes all |
| BitVectors.BitVector.SetInitialBits | vm/BitVector.cpp:152-163 | the first numBits are members, what follows them in their last word is not, what is above that word stays; no member is lost if and only if none stood in that rest |
| BitVectors.BitVector.IsBitSet | vm/BitVector.cpp:168-174 | membership |
| BitVectors.BitVector.CountSetBits | vm/BitVector.cpp:179-201 | the cardinality |
| BitVectors.BitVector.CountOnes | vm/BitVector.cpp:190-194 | clearing the lowest one until zero counts the ones |
| WordBits.DropLowest | vm/BitVector.cpp:191-193 | val & (val - 1) has one bit fewer |
| BitVectors.BitVector.Copy | vm/BitVector.cpp:219-225 | the same set |
| BitVectors.BitVector.Intersect | vm/BitVector.cpp:230-244 | the intersection, aliasing allowed, or no change for vectors that do not match |
| BitVectors.BitVector.Unify | vm/BitVector.cpp:249-263 | the union, aliasing allowed, or no change for vectors that do not match |
| BitVectors.BitVector.Compare | vm/BitVector.cpp:268-279 | false exactly for matching vectors that hold the same set |
| BitVectors.BitVector.CheckMerge | vm/BitVector.cpp:317-333 | the union, and true exactly when it is more than there was |
| BitVectors.MergeAll | vm/BitVector.cpp:317-333 | merging vectors one after the other, sharing of storage allowed, reports a change exactly as often as the union grows, and at most as often as there were unset bits |
| BitVectors.BitVectorIterator.constructor | vm/BitVector.cpp:282-287 | a walk starts at zero |
| BitVectors.BitVectorIterator.Next | vm/BitVector.cpp:290-308 | the least member not seen yet, or -1 exactly if none is left |
| BitVectors.Walk | vm/BitVector.cpp:282-308 | the walk gives every member once, in ascending order |
| BitVectors.SameSets | vm/BitVector.cpp:268-279 | equal sets mean equal words |
| EncodedValue.ReadUnsignedLittleEndian | libdex/DexSwapVerify.cpp:2110-2124 | the little-endian value, or zero and no advance past the end of the file |
| EncodedValue.VerifyEncodedArray | libdex/DexSwapVerify.cpp:2128-2147 | computes the specification, ending on every input |
| EncodedValue.VerifyEncodedValue | libdex/DexSwapVerify.cpp:2151-2267 | computes the specification, ending on every input |
| EncodedValue.VerifyEncodedAnnotation | libdex/DexSwapVerify.cpp:2271-2336 | computes the specification, with and without cross-verification |
| EncodedValue.CompleteValue | libdex/DexSwapVerify.cpp:2151-2267 | the encoding of any tree is accepted, up to the byte after it |
| EncodedValue.CompleteArray | libdex/DexSwapVerify.cpp:2128-2147 | the same for arrays |
| EncodedValue.CompleteAnnotation | libdex/DexSwapVerify.cpp:2271-2336 | the same for annotations |
| EncodedValue.SoundValue | libdex/DexSwapVerify.cpp:2151-2267 | what is accepted inside the file with no index cut off is the encoding of some tree |
| EncodedValue.SoundArray | libdex/DexSwapVerify.cpp:2128-2147 | the same for arrays |
| EncodedValue.SoundAnnotation | libdex/DexSwapVerify.cpp:2271-2336 | the same for annotations |
| EncodedValue.AcceptedIsTreeExactly | libdex/DexSwapVerify.cpp:2110-2267 | what is accepted is the encoding of a tree if and only if it ends in the file and every index on the walk has its payload in the file |
| EncodedValue.AcceptedIsArrayExactly | libdex/DexSwapVerify.cpp:2128-2147 | the same for arrays |
| EncodedValue.AcceptedIsAnnotationExactly | libdex/DexSwapVerify.cpp:2271-2336 | the same for annotations |
| EncodedValue.InsideIsWhole | libdex/DexSwapVerify.cpp:2110-2124 | what ends four bytes inside the file has met no index that is cut off |
| EncodedValue.AcceptsExactly | libdex/DexSwapVerify.cpp:2151-2267 | among ends four bytes inside the file, acceptance and being an encoding are the same |
| EncodedValue.AcceptsArrayExactly | libdex/DexSwapVerify.cpp:2128-2147 | the same for arrays |
| EncodedValue.AcceptsAnnotationExactly | libdex/DexSwapVerify.cpp:2271-2336 | the same for annotations |
| EncodedValue.TruncatedIndexIsAccepted | libdex/DexSwapVerify.cpp:2110-2124 | in every file with a string and at every end: some input is accepted up to there without being a tree if and only if fewer than four bytes follow |
| EncodedValue.SerialEncodes | libdex/DexSwapVerify.cpp:2151-2267 | a written well-formed tree is an encoding of that tree |
| EncodedValue.SerialIsAccepted | libdex/DexSwapVerify.cpp:2151-2267 | wherever a well-formed tree is written it is accepted and its end is found |
| EncodedValue.WellFormedExactly | libdex/DexSwapVerify.cpp:2151-2267 | well-formed trees are those of the format: each of the six kinds of index below the size of its own table, payloads of the size of their type, elements by ascending name |
| EncodedValue.EncodedIsInFormat | libdex/DexSwapVerify.cpp:2151-2267 | every tree that an accepted value encodes keeps to the format |
| ClassData.VerifyUlebs | libdex/DexClass.cpp:28-37 | true exactly for a run of valid numbers inside the limit |
| ClassData.ReadHeader | libdex/DexClass.h:121-127 | the four sizes, ending where the verifying pass ended |
| ClassData.ReadField | libdex/DexClass.h:136-143 | index and flags from two numbers, ending where the verifying pass ended |
| ClassData.ReadMethod | libdex/DexClass.h:152-160 | index, flags and code offset from three numbers, ending where the verifying pass ended |
| ClassData.ReadAndVerifyHeader | libdex/DexClass.cpp:42-50 | verify, then read the same bytes |
| ClassData.ReadAndVerifyFields | libdex/DexClass.cpp:63-71 | a list is accepted exactly when its numbers are valid, and its indices are the sums of the differences in 32 bits |
| ClassData.ReadAndVerifyMethods | libdex/DexClass.cpp:84-92 | the same for methods, with code offsets |
| ClassData.ReadAndVerifyClassData | libdex/DexClass.cpp:104-192 | no data gives empty lists; other data is accepted exactly if all five runs of numbers are valid, the pointer ends behind them and all four lists are decoded; entries are stored up to the first invalid number and no further |
| ClassData.AcceptedIsSmall | libdex/DexClass.cpp:118-122 | for accepted data the bytes of the four lists are at most four times those of the item |
| ClassData.NextEntry | libdex/DexClass.cpp:63-71 | after some entries the next one is read, or it holds the first invalid number and the rest is rejected |
| ClassData.StartsInWords | libdex/DexClass.cpp:125-160 | the pointer advanced list by list, in 32 bits, is the wrapped sum of the lists before |
| ClassData.InsideExactly | libdex/DexClass.cpp:118-184 | the structure and all entries stored lie in the one allocation if and only if their bytes, not wrapped, fit the size that malloc was given |
| ClassData.HeaderDecides | libdex/DexClass.cpp:118-184 | with a given header nothing is stored outside, whatever follows, if and only if the size asked for does not wrap |
| ClassData.AllocationWraps | libdex/DexClass.cpp:118-166 | ten bytes for which malloc is asked for the bare structure and a field is stored behind it |
| ClassData.AcceptedIsInside | libdex/DexClass.cpp:118-191 | accepted data fills its lists, inside the allocation if and only if its size does not wrap, and always when the item is shorter than 2^30 - 8 bytes |
| ClassData.RunOfWritten | libdex/DexClass.cpp:28-37 | numbers that are written are verified and read back as a run |
| ClassDataWrite.FieldsMeant | libdex/DexClass.h:136-143 | the differences and flags that are written for a list of fields mean that list and no other |
| ClassDataWrite.MethodsMeant | libdex/DexClass.h:152-160 | the same for methods |
| ClassDataWrite.ItemRead | libdex/DexClass.cpp:104-192 | a written item is five runs, with the four sizes in the order of the format |
| ClassDataWrite.WrittenIsRead | libdex/DexClass.cpp:104-192 | a class that is written is read back wherever it stands: every member in its own list, with its index, flags and code, up to the byte behind the item |
| ClassData.NextIndex | libdex/DexClass.h:136-143 | adding a difference to the last index in 32 bits is the sum so far |
| ClassData.Split | libdex/DexClass.cpp:28-37 | verifying piece by piece is verifying the whole |

## Left out

- Files, mapping, zlib, logging, checksums, allocation failures and the big-endian macros.
- The other item types of the verifier (annotation directories, class definitions, field and method
  ids, type lists, class data cross-checks): the same kinds of index and order checks, one by one.
  The walk takes the visitor of each item type as a parameter and asks only that an accepted item
  ends after its start, which is proved of the item types that are modelled.
- Opcode tables, the dump tools, the allocation tracker and the get/set pairs of Bits.h.
- A cache of several entries and its statistics: entries share nothing. The slot hash is not modelled.
- Weak memory: reordering by the machine, and the exclusive-load assembly variant of Atomic.cpp.
- AtomicCache.RunInv: counts fewer than 2^30 updates of an entry, as the source says it cannot overflow;
  `SafeExactlyBelow` shows that the bound is exact.
- Sha1.Sha1Context.Update: a length for which `j + len` wraps is excluded. The
  80 macro calls are grouped in rows of five, after which the registers have their own names again.
- Mutf8.StringDataItemIff: for ends inside the file, which the walk checks afterwards; the item alone
  may be accepted with its NUL just behind the end.
- IdTables.CrossVerifyProtoIds: on tables of indices and of strings (those that `FileHasStrings` finds in the
  file), not on the bytes of the id sections, which are taken to be aligned to four. The same holds for
  the results in `DexProto`.
- DexProto.ProtoCompareToDescriptor: for descriptors whose parts are well shaped, as the source
  demands; the buffers of the string cache are not reused in the model.
- SectionWalk.ScanMap: the mask of used section types is kept as the set of types, each of which has
  a bit of its own.
- SectionWalk.IterateSection: the contents of an item matter only through its visitor.
- ClassLookup.CreateClassLookup: for at most 2^26 classes, what a file below 2^31 bytes can define.
  `Find` is for a table with a slot, as the source takes it. Classes are given by the offsets of their
  descriptors and definitions; how those are found through the id tables is not repeated.
- ZipArchive.ParseZipArchive: starts at the mapped directory; finding the end-of-directory record,
  local headers and extraction are not modelled.
- DebugInfo.DecodeDebugInfo: takes what the source asserts about argument words, and that what is
  executed can be read and names no register equal to the number of registers; when that is so is
  stated exactly, what happens to the memory behind the table is not modelled.
  DBG_SET_FILE is read as the decoder reads it, without its argument. Callbacks are always present.
- DebugVerify.IntraVerifyDebugInfoItem: the walk is taken to stop in memory that can be read, as it does
  unless it comes to the end of the file.
- BitVectors.BitVector.AllocBit: bit numbers are taken to fit an int. Aborts of dvmSetBit, dvmClearBit
  and of unequal sizes are preconditions.
- ClassData.ReadAndVerifyClassData: the four lists are arrays of their own. Where the entries would
  stand in the one allocation of the source is computed beside them, with the sizes of the structures
  on a 32-bit machine (32, 8 and 12 bytes), and compared with its size.
