# Verified models of the collection, codec and concurrency examples

The repository is a collection of Java teaching programs. This project models in Dafny the ones that hold
complete algorithms or protocols, and proves what they promise. `dafny verify dfyconfig.toml` checks all of
it.

- `OrderedMap.dfy`, `Hashing.dfy`, `Entries.dfy`, `HashMaps.dfy`, `LinkedHashMaps.dfy`: the hash map and the
  linked hash map, as classes over heap nodes. The linked map keeps every entry in a bucket chain and in a
  doubly linked order list; both are shown to hold the same nodes after any history, and their contents are
  those of an abstract insertion-ordered map, itself characterised from the history alone.
- `Base64.dfy`, `Base64Text.dfy`, `Base64Codec.dfy`, `Base64Writer.dfy`: the codec, on 16-bit code units.
  The first two files say what encoding and decoding mean, with the program's own bit operations, and prove
  the round trips (alphabet and padding of section 4 of RFC 4648; foreign characters ignored and 76-column
  lines as in section 6.8 of RFC 2045, but with a bare newline). The others prove the four decoders and
  three encoders, loops over arrays, against it.
- `BoundedBuffer.dfy`, `NotifyDeadlock.dfy`: three bounded buffers (one monitor with `notify`, one with
  `notifyAll`, two conditions with `signal`) under the wait-set rules of section 17.2 of the Java Language
  Specification, for any numbers of threads and any capacity.
- `LogService.dfy`, `Philosophers.dfy`, `Rotations.dfy`, `PrintABCWaitNotify.dfy`, `PrintABCSemaphore.dfy`,
  `PoisonPill.dfy`, `Indexing.dfy`, `MasterWorker.dfy`, `CasNumberRange.dfy`, `CasCounter.dfy`: the other
  concurrent programs. Each is a step relation; `Runs.dfy` gives runs, reachability, invariants and bounded
  runs. Constants of the programs (thread counts, rounds, capacities) are parameters.
- `QuickSort.dfy`, `BinarySearch.dfy`: quicksort in place and the binary search run on its result.
  `ObjectPool.dfy`: the object pool. `MoneyText.dfy`, `MoneyForm.dfy`: the Chinese money text with its exact
  form, shown to say its amount when read by the rules of Chinese numerals. `JavaInt.dfy`: 32-bit and 64-bit
  arithmetic.

Where the programs do not meet a plain property for all inputs, it is stated as an exact condition:

- one monitor with `notify` can put every thread to sleep, exactly when there are more threads than twice
  the capacity (`NotifyDeadlock.NotifyDeadlockIff`);
- the monitor program that prints in turn completes exactly if the count is at least 1 and there are at most
  2^31 letters (`PrintABCWaitNotify.CompleteIffFits`);
- the array encoder throws exactly from 1610612733 bytes on, the writer form misses newlines exactly from
  1610612748 bytes on, and the chunked decoders throw exactly on strings longer than 2147483392
  (`Base64Codec.EncodeBytes`, `Base64Writer.WriterLimits`, `Base64Codec.DecodeString`);
- the log service loses nothing exactly if at most 2^31 callers are inside `log` at a time
  (`LogService.NothingLostIff`);
- the binary search overflows its midpoint sum exactly on arrays longer than 2^30 and keys beyond the last
  midpoint it can compute (`BinarySearch.Search`);
- a hash capacity keeps the bucket index in range for all hash codes exactly if it divides 2^31
  (`Hashing.IndexInRangeIff`), which the maps' 4 does;
- the pool stays consistent under `release` exactly if the object is in use or idle
  (`ObjectPool.Pool.Release`);
- with a number of consumers that the number of producers does not divide, the remainder stays blocked
  (`PoisonPill.DeliversAndStops`).

Java's null is a constructor of `Nullable` for keys and the constant `nil` for values; keys given to `get`
and `remove` are not null, as the programs demand. A hash code is any function to 32-bit ints. Time,
`create()` and `validate` of the object pool, the file tree of the crawler, the numbers of the producers and
the result of `doWork` are parameters.

## Model

| member | source | states |
|---|---|---|
| `LinkedHashMaps.Execute` | core-collection/collection/map/LinkedHashMap/LinkedHashMapCustomApp.java:44-284 | any sequence of puts and removes on a new map leaves a valid pointer structure whose contents are those of the abstract ordered map: the live keys, each once with its latest value, in order of their (re-)insertion |
| `OrderedMap.HistoryOrder` | core-collection/collection/map/LinkedHashMap/LinkedHashMapCustomApp.java:44-284 | what the abstract ordered map holds after any history, read off the operations alone: exactly the keys whose last operation was a put, with the last put value, ordered by when they were last inserted afresh (an overwrite keeps its place, a put after a remove goes to the end) |
| `OrderedMap.ExplainsPut` | core-collection/collection/map/LinkedHashMap/LinkedHashMapCustomApp.java:82-111 | one put preserves that reading of the history |
| `OrderedMap.ExplainsRemove` | core-collection/collection/map/LinkedHashMap/LinkedHashMapCustomApp.java:117-131 | one remove preserves that reading of the history |
| `LinkedHashMaps.LinkedHashMapCustom.Put` | core-collection/collection/map/LinkedHashMap/LinkedHashMapCustomApp.java:44-75 | keeps chains and order list holding the same nodes, every key in its bucket once, backward links mirroring forward ones; contents become the abstract put; a null key changes nothing; only fresh nodes are added |
| `LinkedHashMaps.LinkedHashMapCustom.Get` | core-collection/collection/map/LinkedHashMap/LinkedHashMapCustomApp.java:236-249 | the value the abstract map holds for the key, null when it holds none |
| `LinkedHashMaps.LinkedHashMapCustom.Remove` | core-collection/collection/map/LinkedHashMap/LinkedHashMapCustomApp.java:256-284 | keeps the same structure; the key leaves the abstract map, the answer says whether it was there, and no node is added |
| `LinkedHashMaps.LinkedHashMapCustom.InsertNode` | core-collection/collection/map/LinkedHashMap/LinkedHashMapCustomApp.java:51-74 | the new node replaces the old one of its key in both linked structures, or goes to the end of both |
| `LinkedHashMaps.LinkedHashMapCustom.RemoveNode` | core-collection/collection/map/LinkedHashMap/LinkedHashMapCustomApp.java:268-276 | the node leaves both linked structures and everything else keeps its place |
| `LinkedHashMaps.LinkedHashMapCustom.MaintainOrderAfterInsert` | core-collection/collection/map/LinkedHashMap/LinkedHashMapCustomApp.java:82-111 | the order list stays doubly linked and holds the new node at the old node's position, or at the end for a new key |
| `LinkedHashMaps.LinkedHashMapCustom.MaintainOrderAfterDeletion` | core-collection/collection/map/LinkedHashMap/LinkedHashMapCustomApp.java:117-131 | the order list stays doubly linked and loses exactly the key's node |
| `LinkedHashMaps.LinkedHashMapCustom.InsertAfter` | core-collection/collection/map/LinkedHashMap/LinkedHashMapCustomApp.java:136-147 | the walk ends at the given node and the new node follows it, both ways round |
| `LinkedHashMaps.LinkedHashMapCustom.DeleteFirst` | core-collection/collection/map/LinkedHashMap/LinkedHashMapCustomApp.java:153-162 | the list without its first node; the empty list stays empty |
| `LinkedHashMaps.LinkedHashMapCustom.InsertFirst` | core-collection/collection/map/LinkedHashMap/LinkedHashMapCustomApp.java:167-179 | the list with the new node in front |
| `LinkedHashMaps.LinkedHashMapCustom.InsertLast` | core-collection/collection/map/LinkedHashMap/LinkedHashMapCustomApp.java:184-195 | the list with the new node at the end |
| `LinkedHashMaps.LinkedHashMapCustom.DeleteLast` | core-collection/collection/map/LinkedHashMap/LinkedHashMapCustomApp.java:200-209 | the list without its last node; the empty list stays empty |
| `LinkedHashMaps.LinkedHashMapCustom.DeleteSpecificEntry` | core-collection/collection/map/LinkedHashMap/LinkedHashMapCustomApp.java:215-229 | the list without the key's node; the result is the node before it, or null if the key is absent; no null is followed because the key is at neither end |
| `LinkedHashMaps.LinkedHashMapCustom.Display` | core-collection/collection/map/LinkedHashMap/LinkedHashMapCustomApp.java:293-301 | the pairs are shown in abstract order |
| `LinkedHashMaps.SameNodeOfKey` | core-collection/collection/map/LinkedHashMap/LinkedHashMapCustomApp.java:236-276 | a key has the same node, or none, in its bucket chain and in the order list |
| `LinkedHashMaps.SameNodesAfterPut` | core-collection/collection/map/LinkedHashMap/LinkedHashMapCustomApp.java:44-75 | updating chain and order list alike keeps them holding the same nodes |
| `LinkedHashMaps.SameNodesAfterRemove` | core-collection/collection/map/LinkedHashMap/LinkedHashMapCustomApp.java:256-284 | dropping a key from chain and order list alike keeps them holding the same nodes |
| `Hashing.IndexInRangeIff` | core-collection/collection/map/LinkedHashMap/LinkedHashMapCustomApp.java:309-311 | the bucket index is in range for every 32-bit hash code, the minimum int included, if and only if the capacity divides 2^31 |
| `Hashing.BucketOf` | core-collection/collection/map/HashMap/HashMapCustomApp.java:154-156 | which bucket a hash code gets: its distance from 0 modulo the capacity, negative only for the minimum int |
| `HashMaps.BucketInRange` | core-collection/collection/map/HashMap/HashMapCustomApp.java:154-156 | with capacity 4 the index is 0..3 for every key |
| `HashMaps.HashMapCustom.Put` | core-collection/collection/map/HashMap/HashMapCustomApp.java:38-72 | refines the finite-map update, with chains acyclic, duplicate-free and each key in its bucket; a null key changes nothing |
| `HashMaps.HashMapCustom.Get` | core-collection/collection/map/HashMap/HashMapCustomApp.java:78-91 | the finite map's value, or null |
| `HashMaps.HashMapCustom.Remove` | core-collection/collection/map/HashMap/HashMapCustomApp.java:98-125 | refines finite-map removal and reports whether the key was present |
| `HashMaps.Execute` | core-collection/collection/map/HashMap/HashMapCustomApp.java:38-125 | any sequence of puts and removes on a new map leaves exactly the keys whose last operation was a put, each with its last value |
| `Entries.FindInChain` | core-collection/collection/map/HashMap/HashMapCustomApp.java:105-122 | walking a chain stops at the first node with the key, `previous` one behind, or at the end |
| `Entries.PutInChain` | core-collection/collection/map/HashMap/HashMapCustomApp.java:48-71 | relinking one chain replaces the key's node in place or appends the new one; other buckets are untouched |
| `Entries.UnlinkFromChain` | core-collection/collection/map/HashMap/HashMapCustomApp.java:110-117 | relinking one chain removes exactly the found node; other buckets are untouched |
| `HashMaps.AgreesAfterPut` | core-collection/collection/map/HashMap/HashMapCustomApp.java:38-72 | chains that agree with a finite map agree with the updated map after the chain update |
| `HashMaps.AgreesAfterRemove` | core-collection/collection/map/HashMap/HashMapCustomApp.java:98-125 | the same for removal |
| `HashMaps.ChainAnswers` | core-collection/collection/map/HashMap/HashMapCustomApp.java:78-91 | searching the key's own chain answers for the whole map, both when present and when absent |
| `Entries.PlaceIsPut` | core-collection/collection/map/LinkedHashMap/LinkedHashMapCustomApp.java:82-111 | replacing or appending a node is the abstract ordered put |
| `Entries.DropIsRemove` | core-collection/collection/map/LinkedHashMap/LinkedHashMapCustomApp.java:117-131 | unlinking a node is the abstract ordered remove |
| `Base64Text.DecodeEncode` | clonegod-commons/src/main/java/clonegod/utils/base64/Base64.java:72-93 | decode(encode(x)) = x for every byte string x |
| `Base64Text.DecodeJoined` | clonegod-commons/src/main/java/clonegod/utils/base64/Base64.java:72-93 | decode(encode(x) + encode(y)) = x + y, padding in the middle included |
| `Base64Text.DecodeWrapped` | clonegod-commons/src/main/java/clonegod/utils/base64/Base64.java:310-347 | the 76-column form holds nothing but letters, pads and newlines, without its newlines it is the plain form, no line is longer than 76, a newline comes only after exactly 76 characters, and it decodes to the original bytes |
| `Base64Text.DecodeIgnoresForeign` | clonegod-commons/src/main/java/clonegod/utils/base64/Base64.java:79-85 | characters outside the alphabet make no difference wherever they stand |
| `Base64.GroupRoundTrip` | clonegod-commons/src/main/java/clonegod/utils/base64/Base64.java:35-63 | one, two or three bytes come back from their four characters, bit by bit |
| `Base64.GroupSpellsBits` | clonegod-commons/src/main/java/clonegod/utils/base64/Base64.java:231-254 | the four characters are the letters that the alphabet's table gives for the group's bits, six at a time and most significant first, zero-filled and padded with '=' as section 4 of RFC 4648 defines |
| `Base64.DecodesBits` | clonegod-commons/src/main/java/clonegod/utils/base64/Base64.java:35-63 | any four kept characters, canonical or not, decode to the leading bytes of the 24 bits the table gives for them; one byte if the third is a pad, else two if the fourth is, else three |
| `Base64.AlphabetIs` | clonegod-commons/src/main/java/clonegod/utils/base64/Base64.java:14-23 | the i-th letter is the i-th of the alphabet written out, the pad is '=' |
| `Base64Text.GroupAt` | clonegod-commons/src/main/java/clonegod/utils/base64/Base64.java:231-254 | the k-th four characters encode the k-th three bytes, or what is left of them |
| `Base64.GroupLetters` | clonegod-commons/src/main/java/clonegod/utils/base64/Base64.java:231-254 | which bits of which bytes each letter of a group carries |
| `Base64.AlphabetIsABijection` | clonegod-commons/src/main/java/clonegod/utils/base64/Base64.java:14-33 | alphabet and decode table are inverse to each other |
| `Base64.SignificantByTable` | clonegod-commons/src/main/java/clonegod/utils/base64/Base64.java:79-79 | the table test keeps exactly the pad and the 64 letters |
| `Base64Codec.BuildTable` | clonegod-commons/src/main/java/clonegod/utils/base64/Base64.java:24-33 | the two initialising loops yield that table |
| `Base64Codec.Decode0` | clonegod-commons/src/main/java/clonegod/utils/base64/Base64.java:35-63 | writes exactly the bytes of the group after the given position, with every table and buffer access in bounds |
| `Base64Codec.Feed` | clonegod-commons/src/main/java/clonegod/utils/base64/Base64.java:120-128 | one character is kept or skipped; only the cell at the write index changes; the carry and the decoded bytes stay those of the text so far |
| `Base64Codec.DecodeChars` | clonegod-commons/src/main/java/clonegod/utils/base64/Base64.java:72-93 | the plain decoder computes the meaning `Decode` of its slice |
| `Base64Codec.DecodeString` | clonegod-commons/src/main/java/clonegod/utils/base64/Base64.java:101-137 | for every sequence of 16-bit code units up to length 2147483392, surrogates included, the chunked in-place decoder returns the same bytes as the plain one, with every access in bounds; on longer strings, and only on those, the chunk index overflows and it throws |
| `Base64Codec.DecodeChunk` | clonegod-commons/src/main/java/clonegod/utils/base64/Base64.java:111-129 | one chunk: at most three carried characters, and the compacted text is that of the data so far; it throws exactly at the chunk whose end does not fit an int |
| `Base64Codec.ChunkEndIs` | clonegod-commons/src/main/java/clonegod/utils/base64/Base64.java:109-117 | which chunk that is |
| `Base64Codec.DecodeBuffered` | clonegod-commons/src/main/java/clonegod/utils/base64/Base64.java:119-129 | compacting in place: the write index never passes the read index, so unread characters are intact |
| `Base64Codec.ChunkFits` | clonegod-commons/src/main/java/clonegod/utils/base64/Base64.java:104-117 | carried characters and the next chunk fit the 256 + 3 buffer |
| `Base64Codec.RoomForGroup` | clonegod-commons/src/main/java/clonegod/utils/base64/Base64.java:75-83 | the output buffer always has room for the next group |
| `Base64Codec.QuadsNext` | clonegod-commons/src/main/java/clonegod/utils/base64/Base64.java:80-84 | one more kept character lengthens the carry, or completes a group and emits exactly its bytes |
| `Base64Codec.DecodeCharsTo` | clonegod-commons/src/main/java/clonegod/utils/base64/Base64.java:147-162 | the stream decoder writes the same bytes as the plain decoder |
| `Base64Codec.DecodeStringTo` | clonegod-commons/src/main/java/clonegod/utils/base64/Base64.java:170-201 | so does the chunked stream decoder; on strings longer than 2147483392, and only on those, it throws after writing the bytes of the chunks before |
| `Base64Codec.EncodeBytes` | clonegod-commons/src/main/java/clonegod/utils/base64/Base64.java:223-256 | the array encoder computes `Encode`, every write in bounds, empty text for a non-positive length; it throws exactly from 1610612733 bytes on, where the computed array size is negative |
| `Base64Codec.EncodeTo` | clonegod-commons/src/main/java/clonegod/utils/base64/Base64.java:266-300 | the stream encoder writes the characters of `Encode`, one byte each |
| `Base64Writer.EncodeToWriter` | clonegod-commons/src/main/java/clonegod/utils/base64/Base64.java:310-347 | the Writer encoder writes the encoded text with a newline wherever its 32-bit counter is a multiple of 76 |
| `Base64Writer.WriterLimits` | clonegod-commons/src/main/java/clonegod/utils/base64/Base64.java:317-330 | that is the wrapped form if and only if there are fewer than 1610612748 bytes, and keeps lines within 76 if and only if there are at most that many; for any length it holds only the encoded text and newlines and decodes to the original bytes |
| `Base64Codec.BytesAreCodes` | clonegod-commons/src/main/java/clonegod/utils/base64/Base64.java:277-299 | each byte of the stream is the code of the encoded character |
| `Base64Codec.StreamRoundTrip` | clonegod-commons/src/main/java/clonegod/utils/base64/Base64.java:266-300 | the bytes of the stream encoder, read as characters, decode to the original |
| `BoundedBuffer.SignalSuffices` | guava/guava/learning/guava/concurrency/Test01bReentrantLock.java:25-56 | for any capacity and any producers and consumers, with barging and spurious wake-ups: while consumers wait, queued items do not outnumber the consumers that were signalled and have not run yet, likewise free slots and signalled producers; so the threads are never all waiting |
| `BoundedBuffer.CoveredStep` | guava/guava/learning/guava/concurrency/Test01bReentrantLock.java:25-56 | every step preserves that no wake-up is lost |
| `BoundedBuffer.NotifyAllSuffices` | guava/guava/learning/guava/concurrency/Test01aSynchronized.java:19-50 | with notifyAll the waiting threads are always all of one kind, and never all threads |
| `BoundedBuffer.FifoWithinCapacity` | core-concurrency/thread/basic/thread02/communication/MyQueue.java:31-66 | under each of the three wake-up policies: put = taken ++ queued, the separate counter is the queue length, the capacity is respected |
| `BoundedBuffer.ProducerMoves` | guava/guava/learning/guava/concurrency/Test01bReentrantLock.java:25-39 | under each policy a producer that is not waiting can put any item while there is room, and otherwise waits |
| `BoundedBuffer.ConsumerMoves` | guava/guava/learning/guava/concurrency/Test01bReentrantLock.java:41-56 | a consumer that is not waiting can take the oldest item while there is one, and otherwise waits |
| `BoundedBuffer.StuckIffAllWaiting` | guava/guava/learning/guava/concurrency/Test01bReentrantLock.java:25-56 | the program can no longer move if and only if every thread waits |
| `NotifyDeadlock.NotifyDeadlockIff` | core-concurrency/thread/basic/thread02/communication/MyQueue.java:31-66 | with one monitor and notify a state with every thread waiting is reachable if and only if producers + consumers > 2 * capacity, whether spurious wake-ups happen or not |
| `NotifyDeadlock.FewThreadsNeverAllWait` | core-concurrency/thread/basic/thread02/communication/MyQueue.java:31-66 | the safe half, by an invariant over all reachable states, spurious wake-ups included |
| `NotifyDeadlock.ManyThreadsCanAllWait` | core-concurrency/thread/basic/thread02/communication/MyQueue.java:31-66 | the unsafe half: for all larger numbers a run without any spurious wake-up that ends with everyone waiting |
| `NotifyDeadlock.StepProjects` | core-concurrency/thread/basic/thread02/communication/MyQueue.java:31-66 | every step of the threads is a step of the waiting counts, or a spurious wake-up of them |
| `NotifyDeadlock.StepLifts` | core-concurrency/thread/basic/thread02/communication/MyQueue.java:31-66 | every step of the waiting counts is matched by a thread's step that is no spurious wake-up |
| `LogService.NothingLost` | core-concurrency/thread/basic/thread01/basic/Test15LogService_Stopable.java:45-75 | in every interleaving the counter is reserved-not-queued + queued + taken-not-counted, modulo 2^32, and with at most 2^31 callers at a time the written output at logger exit is exactly the accepted messages, once each, in queue order |
| `LogService.WritesWhatWasAccepted` | core-concurrency/thread/basic/thread01/basic/Test15LogService_Stopable.java:38-75 | along any run from a stop request on, nothing more is accepted, and what had been accepted at the request is what is written when the logger has exited |
| `LogService.NoneAcceptedAfterStop` | core-concurrency/thread/basic/thread01/basic/Test15LogService_Stopable.java:45-50 | no step after a stop request accepts a message or takes the request back |
| `LogService.AcceptedUntilStop` | core-concurrency/thread/basic/thread01/basic/Test15LogService_Stopable.java:38-52 | before a stop request a free caller's message can always be accepted and no call is refused; after it every call is refused and none accepted; a stop can be requested at any time |
| `LogService.NothingLostIff` | core-concurrency/thread/basic/thread01/basic/Test15LogService_Stopable.java:45-75 | the logger always leaves with everything accepted written if and only if at most 2^31 callers are inside log at a time |
| `LogService.WrapsToZero` | core-concurrency/thread/basic/thread01/basic/Test15LogService_Stopable.java:58-63 | a failing run beyond that bound: full queue, 2^31 + 1 calls waiting, counter 0 again |
| `LogService.NeverBlocked` | core-concurrency/thread/basic/thread01/basic/Test15LogService_Stopable.java:38-71 | after a stop request the logger, until it exits, can move or a call under way will let it move |
| `LogService.StopDrains` | core-concurrency/thread/basic/thread01/basic/Test15LogService_Stopable.java:38-75 | once stop was requested, the calls and threads under way finish in a bounded number of steps in any order, and then the logger has exited, with everything accepted written for at most 2^31 callers at a time |
| `LogService.InvStep` | core-concurrency/thread/basic/thread01/basic/Test15LogService_Stopable.java:38-71 | every step of a caller, a stop or the logger preserves the reservation equation and the pending-interrupt condition |
| `Philosophers.DeadlockIffSameDirection` | core-concurrency/thread/basic/baeldung/deadlock/DiningPhilosophers.java:14-25 | for every n >= 2 and every way of handing out the forks, a deadlock is reachable if and only if all philosophers reach in the same direction |
| `Philosophers.EveryoneEatsOnce` | core-concurrency/thread/basic/baeldung/deadlock/Philosopher.java:19-38 | unless all reach in the same direction, every run is finite (at most 4n steps), and one that cannot be extended has everyone exited having eaten exactly once |
| `Philosophers.ProgramEatsOnce` | core-concurrency/thread/basic/baeldung/deadlock/DiningPhilosophers.java:14-25 | so it is with the last philosopher reversed, for every n >= 2 |
| `Philosophers.NeighboursNeverEatTogether` | core-concurrency/thread/basic/baeldung/deadlock/Philosopher.java:23-30 | in every reachable state, whatever the fork order |
| `Philosophers.DeadlockNeedsSameDirection` | core-concurrency/thread/basic/baeldung/deadlock/DiningPhilosophers.java:14-25 | a stuck state closes the whole ring |
| `Philosophers.GrabbingRun` | core-concurrency/thread/basic/baeldung/deadlock/Philosopher.java:23-24 | with equal directions each philosopher in turn can take one fork, for every n |
| `Philosophers.LayTable` | core-concurrency/thread/basic/baeldung/deadlock/DiningPhilosophers.java:14-25 | the set-up loop gives philosopher i the forks i and i + 1 in this order, and the last one 0 before n - 1 |
| `PrintABCWaitNotify.CompleteIffFits` | core-concurrency/thread/basic/printABC/PrintABC_WaitNotify.java:38-61 | for every number of threads and every int count, with the shared counter and the totals wrapping at 32 bits: all runs to the end print (ABC)^count and finish every thread if and only if count >= 1 and (with two threads or more) there are at most 2^31 letters; for the program, 1 <= count and 3 * count <= 2^31 |
| `PrintABCWaitNotify.MonitorPrintsAll` | core-concurrency/thread/basic/printABC/PrintABC_WaitNotify.java:38-61 | every run is finite; one that cannot be extended has printed an exactly known number of letters in rotation, is complete exactly when that condition holds, and otherwise has left the last thread of the rotation waiting forever |
| `PrintABCWaitNotify.MonitorRefinesPrinter` | core-concurrency/thread/basic/printABC/PrintABC_WaitNotify.java:38-61 | every reachable output is a prefix of the rotation of that length, each step prints the next letter or nothing, and before the end the thread in turn can always print, spurious wake-ups included |
| `PrintABCWaitNotify.TurnAt` | core-concurrency/thread/basic/printABC/PrintABC_WaitNotify.java:43-45 | the counter's 32-bit remainder is the next letter of the rotation up to 2^31 letters (one more if k divides 2^31), where it turns negative and matches no thread |
| `PrintABCWaitNotify.ThreeThreadsTooFar` | core-concurrency/thread/basic/printABC/PrintABC_WaitNotify.java:43-48 | failing inputs: with count 715827883 C waits forever with one letter missing, with count 0 all three wait after 2^31 letters |
| `PrintABCWaitNotify.SomeRunEnds` | core-concurrency/thread/basic/printABC/PrintABC_WaitNotify.java:38-61 | whatever the configuration, some run reaches its end |
| `PrintABCSemaphore.SemaphoresPrintAll` | core-concurrency/thread/basic/printABC/PrintABC_Semaphore.java:37-53 | the semaphore ring refines the same printer for every int count: prefixes only, bounded runs, the full output at the end, every thread finished |
| `Rotations.TurnsFormula` | core-concurrency/thread/basic/printABC/PrintABC_WaitNotify.java:43-48 | how often each thread has printed after v prints |
| `PoisonPill.DeliversAndStops` | core-concurrency/concurrent/queue/baeldung/queue/BlockingQueue/BlockingQueueUsage.java:13-28 | for any P producers, C consumers and capacity: every run is finite and ends with every number delivered exactly once, exactly P*(C/P) consumers stopped and C mod P blocked on an empty queue; all stop if and only if P divides C |
| `PoisonPill.PillsSent` | core-concurrency/concurrent/queue/baeldung/queue/BlockingQueue/NumbersProducer.java:26-35 | pills sent never exceed the quota, stay below it while a producer is unfinished, and in the end are the quota beside exactly the numbers |
| `PoisonPill.ProducersAreServed` | core-concurrency/concurrent/queue/baeldung/queue/BlockingQueue/NumbersConsumer.java:14-24 | while a producer still has items, some consumer is still running |
| `PoisonPill.LastPillTaken` | core-concurrency/concurrent/queue/baeldung/queue/BlockingQueue/NumbersConsumer.java:14-24 | when all consumers have stopped and all producers are done, nothing is left in the queue |
| `PoisonPill.StuckIsConcluded` | core-concurrency/concurrent/queue/baeldung/queue/BlockingQueue/BlockingQueueUsage.java:13-28 | a state without a next step has the promised counts |
| `Indexing.PoisonComesLast` | core-concurrency/concurrent/executor/juc/executor/shutdown/StopIndexingServiceByPoison.java:37-95 | for every file tree and every placement of stop calls: the pill is enqueued at most once, last, and exactly when the crawler ends; at its exit the indexer has indexed all that was queued, a prefix of the depth-first listing, and the whole listing if the crawl was not cut short |
| `Indexing.BothThreadsEnd` | core-concurrency/concurrent/executor/juc/executor/shutdown/StopIndexingServiceByPoison.java:37-78 | once no further stop call arrives both threads end within a bounded number of steps, and everything queued is indexed |
| `Indexing.CrawlListsPlaces` | core-concurrency/concurrent/executor/juc/executor/shutdown/StopIndexingServiceByPoison.java:53-63 | the depth-first listing holds the ids of exactly the accepted files reached from the root through readable directories, once for each place, in lexicographic order of their paths of entry indices |
| `Indexing.UnstoppedIndexesAll` | core-concurrency/concurrent/executor/juc/executor/shutdown/StopIndexingServiceByPoison.java:37-78 | without a stop call every run is finite and ends with the whole listing indexed |
| `Indexing.StopCutsCrawl` | core-concurrency/concurrent/executor/juc/executor/shutdown/StopIndexingServiceByPoison.java:53-63 | from a stop call during the crawl on, no further file is queued, whatever happens |
| `Indexing.StopIsHeard` | core-concurrency/concurrent/executor/juc/executor/shutdown/StopIndexingServiceByPoison.java:93-95 | a stop call can be made at any time and leaves the interrupt pending |
| `Indexing.QueueWithinCapacity` | core-concurrency/concurrent/executor/juc/executor/shutdown/StopIndexingServiceByPoison.java:25-25 | the queue never exceeds its capacity |
| `Indexing.CrawlAccepted` | core-concurrency/concurrent/executor/juc/executor/shutdown/StopIndexingServiceByPoison.java:53-63 | filtering while listing does not change the depth-first listing of accepted files |
| `CasNumberRange.Linearizable` | core-concurrency/concurrent/cas/juc/cas/CasNumberRange.java:39-59 | under any interleaving every published range has lower <= upper; the finished calls in the order of their successful compare-and-set or rejecting read explain the current value sequentially; a compare-and-set fails exactly when another call succeeded since the read |
| `CasNumberRange.EachCallTakesEffect` | core-concurrency/concurrent/cas/juc/cas/CasNumberRange.java:39-59 | in every interleaving the r-th successful setter published the pair before it with only its own bound replaced, and a call threw exactly when, against the pair it read, lower would have exceeded upper |
| `CasNumberRange.EndsWithOutcome` | core-concurrency/concurrent/cas/juc/cas/CasNumberRange.java:39-59 | a call ends with exactly one outcome, its own |
| `CasNumberRange.EndsAlone` | core-concurrency/concurrent/cas/juc/cas/CasNumberRange.java:39-59 | a call left alone ends at once, throwing exactly if the range would be inverted |
| `CasCounter.ReturnsByCounting` | core-concurrency/concurrent/cas/baeldung/cas/SafeCounterWithoutLock.java:12-21 | the counter moves only when a call returns, by one and once for each return |
| `CasCounter.CountsAlone` | core-concurrency/concurrent/cas/baeldung/cas/SafeCounterWithoutLock.java:12-21 | a call left alone adds one and returns |
| `CasCounter.CountsIncrements` | core-concurrency/concurrent/cas/baeldung/cas/SafeCounterWithoutLock.java:12-21 | the counter is the number of completed increments modulo 2^32; a compare-and-set fails exactly when the increments since the read are not a multiple of 2^32 |
| `MasterWorker.SumsAllTasks` | core-concurrency/thread/basic/design/master_worker/Worker.java:29-38 | at every step submitted = queued + in progress + published; whenever all workers have terminated the published sum is the sum over all tasks; runs are bounded and end complete |
| `MasterWorker.GetResult` | core-concurrency/thread/basic/design/master_worker/Master.java:84-90 | adds every entry of the result map once, whatever the iteration order, and the long sum is the true one |
| `MasterWorker.SumFitsLong` | core-concurrency/thread/basic/design/master_worker/Master.java:84-90 | with int ids and int results no sum of entries overflows a long |
| `MasterWorker.CompleteIsTotal` | core-concurrency/thread/basic/design/master_worker/Master.java:71-90 | when isComplete holds, getResult is the sum over all tasks |
| `MasterWorker.SumOverIsTotal` | core-concurrency/thread/basic/design/master_worker/Master.java:84-90 | with one entry per distinct id the sum of the entries is the sum of the tasks |
| `QuickSort.Sort` | algorithm/src/main/java/clonegod/algorithm/sort/QuickSort.java:30-63 | the range comes out sorted and as a permutation of itself, everything outside untouched; recursion is on strictly smaller ranges |
| `QuickSort.SortAll` | algorithm/src/main/java/clonegod/algorithm/sort/QuickSort.java:23-28 | the whole array, empty included, sorted and permuted |
| `QuickSort.Partition` | algorithm/src/main/java/clonegod/algorithm/sort/QuickSort.java:30-55 | splits the range around the pivot value with both scans in bounds, and both parts strictly smaller |
| `QuickSort.ScanUp` | algorithm/src/main/java/clonegod/algorithm/sort/QuickSort.java:38-40 | the unguarded upward scan stops at or before a stop value ahead of it |
| `QuickSort.ScanDown` | algorithm/src/main/java/clonegod/algorithm/sort/QuickSort.java:42-44 | the unguarded downward scan stops at or before a stop value behind it |
| `QuickSort.ExchangeNumbers` | algorithm/src/main/java/clonegod/algorithm/sort/QuickSort.java:64-68 | swaps two cells; a permutation of the range between them |
| `BinarySearch.Search` | algorithm/src/main/java/clonegod/algorithm/search/BinarySearch.java:27-45 | an index holds the key, -1 means it is absent, and the search runs out of bounds if and only if the array is longer than 2^30 and the key lies beyond the last midpoint whose 32-bit sum does not overflow |
| `BinarySearch.OverflowHappens` | algorithm/src/main/java/clonegod/algorithm/search/BinarySearch.java:27-45 | a failing input: the search for 1 in 2^30 + 1 zeros |
| `BinarySearch.SortThenSearch` | algorithm/src/main/java/clonegod/algorithm/search/BinarySearch.java:14-25 | sorting and then searching finds a key only if the original array held it and reports it missing only if it did not; out of bounds only beyond length 2^30 |
| `ObjectPool.Pool.Acquire` | design_pattern/DesignPattern/pattern/create/objectpoll/objectpool/AbstractObjectPool.java:25-57 | keeps every created object in exactly one of in use, idle or expired; the result was not in use; a usable idle object is preferred, a new one is made only if there is none; exactly the objects passed over are expired, once each, and all of them unusable |
| `ObjectPool.Pool.Scan` | design_pattern/DesignPattern/pattern/create/objectpoll/objectpool/AbstractObjectPool.java:29-52 | the scan stops at the first usable object, whatever the table's order, having expired exactly those before it |
| `ObjectPool.Pool.Release` | design_pattern/DesignPattern/pattern/create/objectpoll/objectpool/AbstractObjectPool.java:60-63 | keeps the pool consistent if and only if the object was in use or idle |
| `MoneyText.TextSaysAmount` | clonegod-commons/src/main/java/clonegod/uitls/MathUtil.java:9-46 | read by the ordinary rules of Chinese numerals, the text of every amount from 0 to 999999999999999 cents says exactly that amount: omitted zeros, announced zeros, bare section marks and the collapsed pair never change it |
| `MoneyForm.TextForm` | clonegod-commons/src/main/java/clonegod/uitls/MathUtil.java:17-45 | the text place by place over the fifteen digits of the amount: a nonzero digit prints itself and its unit, with a 零 before it if and only if the place before holds a zero that is neither leading nor at places 0, 4, 8, 12; a zero prints only the bare unit at places 4, 8, 12, the 万 being left out exactly when places 5 to 8 are zero after a 亿; 整 ends it if and only if the cents are zero |
| `MoneyForm.NeverYiWan` | clonegod-commons/src/main/java/clonegod/uitls/MathUtil.java:44-44 | no text holds a 亿 followed by a 万 |
| `MoneyText.TextInjective` | clonegod-commons/src/main/java/clonegod/uitls/MathUtil.java:9-46 | hence no two amounts print alike |
| `MoneyText.GetMoneyTextCN` | clonegod-commons/src/main/java/clonegod/uitls/MathUtil.java:9-46 | the program builds that text, with the unit index in bounds, and refuses amounts out of range |
| `MoneyText.AppendDigits` | clonegod-commons/src/main/java/clonegod/uitls/MathUtil.java:17-40 | the loop appends one piece per digit, both indices in bounds |
| `MoneyText.AppendDigit` | clonegod-commons/src/main/java/clonegod/uitls/MathUtil.java:24-39 | one digit appends its piece and leaves an omitted zero to be announced unless its place closed a section |
| `MoneyText.ReadPiece` | clonegod-commons/src/main/java/clonegod/uitls/MathUtil.java:26-39 | each piece says just its digit at its position, for every position and with or without an announced zero |
| `MoneyText.ReadCollapsed` | clonegod-commons/src/main/java/clonegod/uitls/MathUtil.java:44-44 | collapsing the pair of marks does not change what a text says |
| `MoneyText.ReadClosed` | clonegod-commons/src/main/java/clonegod/uitls/MathUtil.java:41-43 | neither does the closing character |
| `MoneyText.TablesAgree` | clonegod-commons/src/main/java/clonegod/uitls/MathUtil.java:5-6 | the unit and digit tables, entry by entry |

## Left out

- Update in place and aliasing in the concurrent programs: their shared state is a value and each region that runs under a lock, or each atomic call, is one step; the Java memory model beyond that is not modelled.
- Interrupts other than those the programs issue themselves (stop of the log service, stop of the indexing service), and exceptions thrown by `doWork`.
- Spurious wake-ups are part of every safety statement; the termination of the monitor printer leaves them out, since with them a run need not end.
- Fairness: termination is stated as bounded runs whose last state is the promised one, not as scheduling fairness.
- Array sizes a virtual machine refuses although they fit an int, and running out of memory.
- Overflow of clock differences in the object pool: clock readings are non-negative longs, whose differences do not overflow.
- `Base64.encode(String)`, which depends on the platform charset, and `Base64.encode(byte[])`, which only forwards.
- `HashMapCustom.display`: printing by bucket order.
- The comparison counter of quicksort.
- The rounding of `getMoneyTextCN` from a floating-point amount to cents: the model starts from the cents.
- HashMaps.HashMapCustom: its entries carry two unused order links, since both maps share one entry class; each chain walk is one method used by `put`, `get` and `remove` alike.
- `CASCounter`, which never initialises its cell; the counter modelled is `SafeCounterWithoutLock`.
- Sockets, NIO, files, Excel, serialization, digests, Swing, Guava, Reactor, Spring, executors, Phaser, StampedLock and stream demos: their behaviour lies in libraries or in input and output.
- Design-pattern skeletons, bubble sort, hex conversion, fork/join sums and synchronized counters: they would only add easy members.
