# Verification models of the event library and the two protocol front ends

Dafny models of the hardest parts of this repository, with proofs of the
properties they are there for. Each imperative part of the C code is a class or
a method whose `ensures` ties the new state to a function of the old one; the
theorems are lemmas about these functions, over all inputs, all states and all
runs. `dafny verify dfyconfig.toml` checks the whole project.

**The RC4 generator** (`arc4random.c`). `Rc4` holds the generator's state
changes as functions: output steps form a bijection that can be undone for any
number of steps, the table stays a permutation, output and keying are the
textbook ones. `HexEntropy` decodes untidy hexadecimal text,
`UniformSampling` is the 32-bit arithmetic behind exact uniformity,
`RandomCalls` the reseed budget over whole runs of calls, and `Arc4Random` the
code itself, over an array that is swapped in place. What the operating system's
seed sources deliver is a parameter: for each call of `arc4_seed`, a key or a
failure for each source, and for the uuid file the texts read.

**Bufferevents** (`bufferevent.c`, `bufferevent_filter.c`). `Suspension` is the
machine of enabling, disabling, suspending with reasons, timeouts and read
watermarks. `DeferredCallbacks` is the coalescing of notifications through the
event loop's deferred queue, with callbacks that may raise again, replace the
callbacks or free the bufferevent; what a callback does is an arbitrary list of
actions. `FilterChain` is what happens down a chain of filters: destruction when
reference counts run out, and the sharing of one lock. One thread is assumed.

**The overlapped evbuffer** (`buffer_iocp.c`, with the parts of `buffer.c` that
it calls). `Chains` has the linked chains and the descriptors handed to the
operating system, `ScatterGather` the arithmetic of spreading bytes over them,
`ChainStates` what the operations make of a list of chains, and
`OverlappedBuffer` the code on the heap: launching and committing writes and
reads, draining, making room, pinning and giving back chains. Whether memory is
available and whether the system call is accepted are parameters.

**The line reader** (`httpd.c`). `LineReader` proves that `get_line` delivers
the stream with CRLF and bare CR turned into LF and split into lines in the only
possible way, and where `clear_header` stops. Section 3.5 of RFC 7230 asks for
CRLF and lets a recipient accept a bare LF; this code also takes a bare CR for
the end of a line.

**The NACD client session** (`nacd_tcp_client.c`). `NacdSession` is the
automaton of sends and receives over all sequences of events and replies.

## Where the code does not do what it is meant to

- `RandomCalls.UuidAloneDoesNotSeed`: decoding the uuid file makes `arc4_seed`
  succeed but leaves `arc4_seeded_ok` clear, so the stir fails when no other
  source worked.
- `RandomCalls.LoopCounterFits`: the `int` counter of `arc4random_addrandom`
  overflows exactly for lengths above 0x7fffff00.
- `Suspension.EqualityDependsOnPast`: at a length equal to the high mark,
  whether reading is suspended depends on which came last.
- `FilterChain.SharesOneLockExactlyWhen`: a chain with unlocked bufferevents
  above a locked one can be left with two locks.
- `OverlappedBuffer.Overlapped.AbortsExactlyWhen`: `evbuffer_launch_read` pins
  all chains to the end of the list but describes only as many as are needed, so
  its assertion fails whenever the last one is not. Ordinary short reads lead
  there: `ShortReadThenAbort` from any buffer, `TwoShortReads` from a new one.
- `LineReader.StopsAtBlankLineExactlyWhen`: the header skipper takes the newline
  behind a line of 1023 characters, or a multiple of it, for the blank line.
- `NacdSession.TouchedExactlyWhen`: after a failed send the session is released
  and its event armed all the same.
- `NacdSession.FailedStartIsStuck`: a session whose first send fails is never
  released, as its callers ignore the result.
- `NacdSession.RequestGoesOutExactlyWhen`: two handlers pass a message type where
  the state one above it is expected. So the heart-beat handler never sends a
  heart-beat but connects again (`HeartBeatHandlerOnlyConnects`,
  `HeartBeatHandlerEnds`), and the password handler sends a heart-beat instead of
  the password (`PasswordHandlerSendsHeartBeat`).

## Conditions the code relies on

- `Suspension.EmptySuspensionBreaks`: a suspension must name a reason, as every
  call in the repository does; an empty one would turn an active backend off.
- `OverlappedBuffer.Overlapped.CommitRead`: no more bytes may be reported than
  the descriptors offer, which the system call guarantees; exactly then
  `total_len` stays the sum of the offsets.
- `OverlappedBuffer.Overlapped.DrainValid`: a buffer may be drained empty during
  a read unless the read pinned no chain, which takes one launched for 0 bytes.

## Model

| member | source | states |
|---|---|---|
| `Rc4.ByteArithmeticWraps` | src/lib/libevent/libevent-2.0.21-stable/arc4random.c:112-116 | `unsigned char` addition and subtraction are the sum and difference modulo 256 |
| `Rc4.InitialIsPermutation` | src/lib/libevent/libevent-2.0.21-stable/arc4random.c:95-104 | initialization leaves a permutation of 0..255 |
| `Rc4.SwapKeepsPermutation` | src/lib/libevent/libevent-2.0.21-stable/arc4random.c:117-118 | a swap keeps a permutation, also when both indices are equal |
| `Rc4.MixBytesKeepsPermutation` | src/lib/libevent/libevent-2.0.21-stable/arc4random.c:113-119 | any number of keyed mixing rounds keeps the table a permutation |
| `Rc4.AddRandomKeepsPermutation` | src/lib/libevent/libevent-2.0.21-stable/arc4random.c:106-121 | mixing in any key keeps the table a permutation |
| `Rc4.AdvanceKeepsPermutation` | src/lib/libevent/libevent-2.0.21-stable/arc4random.c:408-420 | any number of output bytes keeps the table a permutation |
| `Rc4.NextIsOutputStep` | src/lib/libevent/libevent-2.0.21-stable/arc4random.c:408-420 | the new indices, table and byte are those of one output step of RC4 as usually defined, written out modulo 256 |
| `Rc4.OutputsAreKeystream` | src/lib/libevent/libevent-2.0.21-stable/arc4random.c:408-420 | from any state, the bytes put out are the RC4 output, for any number of them |
| `Rc4.UndoNext` | src/lib/libevent/libevent-2.0.21-stable/arc4random.c:408-420 | an output step can be undone: undoing after stepping gives the state back |
| `Rc4.NextUndo` | src/lib/libevent/libevent-2.0.21-stable/arc4random.c:408-420 | every state has a predecessor: stepping after undoing gives the state back |
| `Rc4.NextIsBijection` | src/lib/libevent/libevent-2.0.21-stable/arc4random.c:408-420 | one output step is a bijection on states (i, j, s): two states with the same successor are equal, and each state has one |
| `Rc4.RewindAdvance` | src/lib/libevent/libevent-2.0.21-stable/arc4random.c:408-420 | any number of steps can be undone, which recovers the exact starting state |
| `Rc4.AdvanceRewind` | src/lib/libevent/libevent-2.0.21-stable/arc4random.c:408-420 | every state is reached in n steps from exactly one state |
| `Rc4.AdvanceNeverMerges` | src/lib/libevent/libevent-2.0.21-stable/arc4random.c:408-420 | distinct states stay distinct under runs of equal length |
| `Rc4.RoundWorksOnSlot` | src/lib/libevent/libevent-2.0.21-stable/arc4random.c:113-115 | round n of a mixing call that starts behind index i works on slot i + 1 + n modulo 256 |
| `Rc4.EachSlotVisitedOnce` | src/lib/libevent/libevent-2.0.21-stable/arc4random.c:112-119 | from any starting index, each slot is worked on in exactly one of the 256 rounds |
| `Rc4.AddRandomLowersIndex` | src/lib/libevent/libevent-2.0.21-stable/arc4random.c:112-120 | a mixing call ends with i lowered by one modulo 256 and j equal to i |
| `Rc4.MixBytesFollowsKeySchedule` | src/lib/libevent/libevent-2.0.21-stable/arc4random.c:113-119 | after n rounds on a fresh state, table and j are those of n rounds of the textbook key schedule |
| `Rc4.AddRandomIsKeySchedule` | src/lib/libevent/libevent-2.0.21-stable/arc4random.c:95-121 | mixing a key into a fresh state leaves the table of the textbook RC4 key schedule of that key |
| `Rc4.AddRandomFollowsSchedule` | src/lib/libevent/libevent-2.0.21-stable/arc4random.c:106-121 | from any state, mixing a key runs 256 rounds of the key schedule on from its i, j and table, round n with key byte n modulo the length; i is lowered and j set to it |
| `Rc4.RepeatIsPeriodic` | src/lib/libevent/libevent-2.0.21-stable/arc4random.c:116 | a repeated key has the same byte wherever the key does, modulo its length |
| `Rc4.RepeatingKeyChangesNothing` | src/lib/libevent/libevent-2.0.21-stable/arc4random.c:113-119 | mixing in a key repeated any number of times has the effect of mixing in the key |
| `HexEntropy.StoreNybble` | src/lib/libevent/libevent-2.0.21-stable/arc4random.c:272-280 | storing one digit turns the bytes of the digits so far into the bytes of one digit more |
| `HexEntropy.Decode` | src/lib/libevent/libevent-2.0.21-stable/arc4random.c:270-281 | for any text of at most 128 characters the 64-byte array holds exactly its hexadecimal digits, paired in order with the high half first, zeroes behind; other characters are ignored |
| `HexEntropy.PackHexPrint` | src/lib/libevent/libevent-2.0.21-stable/arc4random.c:270-286 | packing the digits of printed bytes gives the bytes back |
| `HexEntropy.HexDigitsOfSeparated` | src/lib/libevent/libevent-2.0.21-stable/arc4random.c:271-272 | separators without hexadecimal digits do not change the digits of a text |
| `HexEntropy.DecodePrinted` | src/lib/libevent/libevent-2.0.21-stable/arc4random.c:270-286 | printing bytes in hexadecimal with any separators and decoding gives the bytes back |
| `HexEntropy.CollectBounds` | src/lib/libevent/libevent-2.0.21-stable/arc4random.c:262-289 | at most 32 reads succeed; the function returns 0 exactly when 32 bytes or more were decoded, and it decodes at most 95 |
| `HexEntropy.CollectFromStart` | src/lib/libevent/libevent-2.0.21-stable/arc4random.c:262-289 | from the start: at most 32 keys, at most 95 bytes, and success from 32 bytes on |
| `HexEntropy.HexAlphabet` | src/lib/libevent/libevent-2.0.21-stable/arc4random.c:272 | the digits are the ten figures and six letters in either case, and no other character |
| `HexEntropy.CaseMakesNoDifference` | src/lib/libevent/libevent-2.0.21-stable/arc4random.c:273 | a capital letter stands for the same value as the small one |
| `HexEntropy.CollectKey` | src/lib/libevent/libevent-2.0.21-stable/arc4random.c:262-287 | key number m is decoded from the text of read number m |
| `HexEntropy.CollectPrinted` | src/lib/libevent/libevent-2.0.21-stable/arc4random.c:262-287 | if that text prints some bytes in hexadecimal, with anything but digits between them, the key is these bytes |
| `UniformSampling.ThresholdIsRemainder` | src/lib/libevent/libevent-2.0.21-stable/arc4random.c:516-523 | both branches of the 32-bit computation give 2^32 mod bound, also at 2^31 where the doubling wraps to 0 |
| `UniformSampling.EveryResultEquallyLikely` | src/lib/libevent/libevent-2.0.21-stable/arc4random.c:531-537 | for every bound from 2 on, each result below the bound comes from exactly floor(2^32 / bound) accepted words |
| `UniformSampling.MoreThanHalfAccepted` | src/lib/libevent/libevent-2.0.21-stable/arc4random.c:525-530 | more than half of all 32-bit words are accepted |
| `RandomCalls.AddKeysKeepsPermutation` | src/lib/libevent/libevent-2.0.21-stable/arc4random.c:324-354 | however many keys the seed sources deliver, the table stays a permutation |
| `RandomCalls.SeedMixesInOrder` | src/lib/libevent/libevent-2.0.21-stable/arc4random.c:324-354 | the device key comes first, the keys of the uuid file next, and that of the system call last and only if neither worked |
| `RandomCalls.StirMixes` | src/lib/libevent/libevent-2.0.21-stable/arc4random.c:356-393 | a stir goes on from the state there is, or from the fresh one before the first; it mixes in the keys in that order, and throws 3072 bytes away exactly if some source has set `arc4_seeded_ok` by then |
| `RandomCalls.StirsExactlyWhen` | src/lib/libevent/libevent-2.0.21-stable/arc4random.c:396-490 | a word or a buffer stirs first exactly when the count is used up, nothing is initialized, or another process asks, and then comes from the stirred state; so a child never goes on with the bytes of its parent |
| `RandomCalls.WordIsNextFourBytes` | src/lib/libevent/libevent-2.0.21-stable/arc4random.c:422-433 | a word is below 2^32, and its four bytes are the next four of the RC4 output, the first one highest |
| `RandomCalls.FillFromEnd` | src/lib/libevent/libevent-2.0.21-stable/arc4random.c:486-490 | the byte at p of a buffer is read off the state after the n - p bytes from there to its end, with all stirs between them |
| `RandomCalls.FillIsKeystream` | src/lib/libevent/libevent-2.0.21-stable/arc4random.c:486-490 | within the budget the buffer is the next n bytes of the RC4 output in reverse |
| `RandomCalls.FirstWord` | src/lib/libevent/libevent-2.0.21-stable/arc4random.c:324-477 | the first word of a process in which only a random device works is made of bytes 3072 to 3075 of the RC4 output behind the textbook key schedule of its bytes |
| `RandomCalls.StirKeepsInv` | src/lib/libevent/libevent-2.0.21-stable/arc4random.c:356-393 | a stir that succeeds sets the budget to 1600000 and starts its period anew; one that fails leaves it unseeded with the count it had, at most 0 |
| `RandomCalls.StirIfNeededKeepsInv` | src/lib/libevent/libevent-2.0.21-stable/arc4random.c:396-406 | a conditional stir keeps the budget, and repairs a count that has dropped to 0 or less |
| `RandomCalls.RandomKeepsInv` | src/lib/libevent/libevent-2.0.21-stable/arc4random.c:467-477 | a word costs four bytes of the budget: of what was left if it stirs not, and of the period it begins if it stirs |
| `RandomCalls.FillKeepsInv` | src/lib/libevent/libevent-2.0.21-stable/arc4random.c:480-492 | a buffer of any length keeps the budget, whose counting differs from that of words |
| `RandomCalls.FillWithinBudget` | src/lib/libevent/libevent-2.0.21-stable/arc4random.c:486-490 | a buffer shorter than the count is filled without a stir |
| `RandomCalls.ApplyKeepsInv` | src/lib/libevent/libevent-2.0.21-stable/arc4random.c:435-492 | each kind of call keeps the budget |
| `RandomCalls.RunKeepsBudget` | src/lib/libevent/libevent-2.0.21-stable/arc4random.c:356-492 | over every run mixing words, buffers, stirs and added data: the table is a permutation; once seeding has succeeded the count is in 1..1600000 and at most 1600003 bytes are handed out since the last stir; before that the count is at most 0 |
| `RandomCalls.BudgetIsTight` | src/lib/libevent/libevent-2.0.21-stable/arc4random.c:466-492 | the bound 1600003 is reached |
| `RandomCalls.UuidAloneDoesNotSeed` | src/lib/libevent/libevent-2.0.21-stable/arc4random.c:324-368 | a stir succeeds exactly when a seed source other than the uuid file did: the uuid file alone makes `arc4_seed` return 0 but does not set `arc4_seeded_ok` |
| `RandomCalls.EveryByteIsAKeyByte` | src/lib/libevent/libevent-2.0.21-stable/arc4random.c:455-461 | byte p of the data is the key byte of round p mod 256 of chunk p / 256, for data of any length |
| `RandomCalls.AbsorbMixesChunk` | src/lib/libevent/libevent-2.0.21-stable/arc4random.c:455-461 | round n of the loop is a key schedule run with 256 bytes: the data from byte 256 n on, over and over if they are fewer |
| `RandomCalls.AbsorbLowersIndex` | src/lib/libevent/libevent-2.0.21-stable/arc4random.c:455-461 | i ends lowered by the number of chunks modulo 256 |
| `RandomCalls.AbsorbKeepsPermutation` | src/lib/libevent/libevent-2.0.21-stable/arc4random.c:455-461 | absorbing any data keeps the table a permutation |
| `RandomCalls.LoopCounterFits` | src/lib/libevent/libevent-2.0.21-stable/arc4random.c:451-461 | the `int` loop counter stays in range exactly for lengths up to 0x7fffff00 |
| `RandomCalls.UniformIsFirstAccepted` | src/lib/libevent/libevent-2.0.21-stable/arc4random.c:531-537 | the result is the first accepted word of the sequence reduced modulo the bound, and there is none only if every word drawn was rejected |
| `Arc4Random.Arc4.constructor` | src/lib/libevent/libevent-2.0.21-stable/arc4random.c:87-91 | the static variables before the first call |
| `Arc4Random.Arc4.Init` | src/lib/libevent/libevent-2.0.21-stable/arc4random.c:95-104 | the arrays and indices become those of the fresh state |
| `Arc4Random.Arc4.MixByte` | src/lib/libevent/libevent-2.0.21-stable/arc4random.c:114-118 | one keyed round in place: it computes `Rc4.MixRound`, and a table that was a permutation still is one |
| `Arc4Random.Arc4.Mix` | src/lib/libevent/libevent-2.0.21-stable/arc4random.c:106-121 | the in-place loop computes `Rc4.AddRandom` of the old state and the key |
| `Arc4Random.Arc4.GetByte` | src/lib/libevent/libevent-2.0.21-stable/arc4random.c:408-420 | the in-place swap computes `Rc4.Next`; indices, table and byte are those of one textbook output step |
| `Arc4Random.Arc4.SeedFromUuid` | src/lib/libevent/libevent-2.0.21-stable/arc4random.c:251-290 | the reading loop mixes in exactly the keys of the decoded texts, in order |
| `Arc4Random.Arc4.SeedAll` | src/lib/libevent/libevent-2.0.21-stable/arc4random.c:324-354 | all sources are tried in order, the last only if none before it worked |
| `Arc4Random.Arc4.Discard` | src/lib/libevent/libevent-2.0.21-stable/arc4random.c:388-389 | 3072 bytes are thrown away |
| `Arc4Random.Arc4.Stir` | src/lib/libevent/libevent-2.0.21-stable/arc4random.c:356-393 | the new state is `RandomCalls.Stir` of the old one, and the result tells whether it is seeded |
| `Arc4Random.Arc4.StirIfNeeded` | src/lib/libevent/libevent-2.0.21-stable/arc4random.c:396-406 | stirs when the count is used up, before initialization, or in another process |
| `Arc4Random.Arc4.GetWord` | src/lib/libevent/libevent-2.0.21-stable/arc4random.c:422-433 | the word made of four output bytes, the first one highest |
| `Arc4Random.Arc4.Random` | src/lib/libevent/libevent-2.0.21-stable/arc4random.c:467-477 | the new state and word are those of `RandomCalls.Random` |
| `Arc4Random.Arc4.TakeByte` | src/lib/libevent/libevent-2.0.21-stable/arc4random.c:487-489 | one byte for a buffer, after a stir if the count is used up |
| `Arc4Random.Arc4.Buf` | src/lib/libevent/libevent-2.0.21-stable/arc4random.c:480-492 | the buffer is filled from its end with the bytes of `RandomCalls.Buf` |
| `Arc4Random.Arc4.AddRandom` | src/lib/libevent/libevent-2.0.21-stable/arc4random.c:448-463 | chunks of 256 bytes are absorbed in order, after a stir before initialization |
| `Arc4Random.Arc4.Uniform` | src/lib/libevent/libevent-2.0.21-stable/arc4random.c:505-538 | bounds below 2 give 0; otherwise the result of `RandomCalls.Uniform` |
| `Suspension.ReadingStaysInStep` | src/lib/libevent/libevent-2.0.21-stable/bufferevent.c:65-87 | each operation keeps reading active exactly when it is enabled and not suspended |
| `Suspension.WritingStaysInStep` | src/lib/libevent/libevent-2.0.21-stable/bufferevent.c:89-111 | each operation keeps writing active only when it is enabled and not suspended, and one about writing makes it exactly then |
| `Suspension.BackendInStep` | src/lib/libevent/libevent-2.0.21-stable/bufferevent.c:65-111 | over any interleaving of enabling, disabling, suspending with reasons, timeouts and watermarks, the backend works on reading exactly when it should, and on writing only when it should: exactly then if and only if some operation has been about writing |
| `Suspension.InitInStep` | src/lib/libevent/libevent-2.0.21-stable/bufferevent.c:305 | at the start writing counts as enabled but is not active |
| `Suspension.EmptySuspensionBreaks` | src/lib/libevent/libevent-2.0.21-stable/bufferevent.c:65-75 | a suspension keeps the rule exactly when it names a reason or reading was not active, which is why the runs above name reasons |
| `Suspension.EnabledAsLastAsked` | src/lib/libevent/libevent-2.0.21-stable/bufferevent.c:406-510 | after any run an event is enabled exactly when the last operation about it enabled it, or there was none and it is EV_WRITE; suspensions and watermarks never forget what was asked for |
| `Suspension.WordsAreReasonSets` | src/lib/libevent/libevent-2.0.21-stable/bufferevent.c:65-111 | after any run a reason is in a suspended word exactly when the last call naming it was a suspend |
| `Suspension.ApplyKeepsWatermarkInv` | src/lib/libevent/libevent-2.0.21-stable/bufferevent.c:516-562 | each operation keeps the watermark rule |
| `Suspension.WatermarkHolds` | src/lib/libevent/libevent-2.0.21-stable/bufferevent.c:516-562 | over any run, reads that find the mark reached included, with a high mark set: a longer input means the watermark reason is set, a shorter one that it is clear; without one the callback is off and the reason clear |
| `Suspension.WatermarkDecides` | src/lib/libevent/libevent-2.0.21-stable/bufferevent.c:539-556 | right after the input changed, or a read was about to start, the reason is set exactly when the length reaches the mark; right after the mark was set, equality leaves it as it was |
| `Suspension.EqualityDependsOnPast` | src/lib/libevent/libevent-2.0.21-stable/bufferevent.c:548-551 | at equality two runs with the same length and mark differ in the reason |
| `Suspension.WatermarkAltersNothingElse` | src/lib/libevent/libevent-2.0.21-stable/bufferevent.c:516-562 | watermarks, input changes and the test before a read never alter another reason, the write side or what is enabled |
| `Suspension.OnlyTheirOwnOperations` | src/lib/libevent/libevent-2.0.21-stable/bufferevent.c:406-562 | the high mark, the input length and a connection attempt change only by the operations about them, and to the values given |
| `Suspension.WritingUntouched` | src/lib/libevent/libevent-2.0.21-stable/bufferevent.c:406-562 | an operation that is not about writing changes nothing about it |
| `Suspension.Bufferevent.constructor` | src/lib/libevent/libevent-2.0.21-stable/bufferevent.c:271-341 | the fields after initialization |
| `Suspension.Bufferevent.SuspendReading` | src/lib/libevent/libevent-2.0.21-stable/bufferevent.c:65-75 | the backend is told only by the first reason; the word gains the reasons |
| `Suspension.Bufferevent.UnsuspendReading` | src/lib/libevent/libevent-2.0.21-stable/bufferevent.c:77-87 | the backend is told when no reason is left and reading is enabled |
| `Suspension.Bufferevent.SuspendWriting` | src/lib/libevent/libevent-2.0.21-stable/bufferevent.c:89-99 | the same for writing |
| `Suspension.Bufferevent.UnsuspendWriting` | src/lib/libevent/libevent-2.0.21-stable/bufferevent.c:101-111 | the same for writing |
| `Suspension.Bufferevent.EnableEvents` | src/lib/libevent/libevent-2.0.21-stable/bufferevent.c:406-427 | events are enabled; only those not suspended reach the backend |
| `Suspension.Bufferevent.DisableEvents` | src/lib/libevent/libevent-2.0.21-stable/bufferevent.c:497-510 | events are disabled here and in the backend |
| `Suspension.Bufferevent.DisableEventsHard` | src/lib/libevent/libevent-2.0.21-stable/bufferevent.c:479-495 | the same, and a connection attempt is given up when writing is disabled |
| `Suspension.Bufferevent.SetWatermarks` | src/lib/libevent/libevent-2.0.21-stable/bufferevent.c:516-562 | installs, enables or disables the callback and adjusts the reason |
| `Suspension.Bufferevent.WatermarkCallback` | src/lib/libevent/libevent-2.0.21-stable/bufferevent.c:116-130 | suspends at the mark or above, unsuspends below |
| `Suspension.Bufferevent.ReadReadiness` | src/lib/libevent/libevent-2.0.21-stable/bufferevent_sock.c:145-157 | the test before a read suspends for the watermark exactly when the length reaches it, and ends the read then |
| `Suspension.Bufferevent.ChangeInput` | src/lib/libevent/libevent-2.0.21-stable/buffer.c:472-488 | a change of the input length is followed by the callback exactly if it is enabled |
| `Suspension.Bufferevent.ReadTimeout` | src/lib/libevent/libevent-2.0.21-stable/bufferevent.c:791-799 | a read timeout disables reading |
| `Suspension.Bufferevent.WriteTimeout` | src/lib/libevent/libevent-2.0.21-stable/bufferevent.c:800-808 | a write timeout disables writing |
| `DeferredCallbacks.PerformKeepsInv` | src/lib/libevent/libevent-2.0.21-stable/bufferevent.c:219-269 | each raise, change of callbacks and change of references keeps the accounting, also during a run |
| `DeferredCallbacks.CallKeepsInv` | src/lib/libevent/libevent-2.0.21-stable/bufferevent.c:132-163 | a callback may do anything: raise again, replace callbacks, free the bufferevent |
| `DeferredCallbacks.StagesKeepInv` | src/lib/libevent/libevent-2.0.21-stable/bufferevent.c:132-163 | one run tells CONNECTED first, then reading, writing and the remaining events, each at most once, and each exactly if it is pending and its callback installed when its turn comes |
| `DeferredCallbacks.StagesFindPending` | src/lib/libevent/libevent-2.0.21-stable/bufferevent.c:132-163 | whatever the earlier callbacks of a run do, each stage still finds what was pending when the run began |
| `DeferredCallbacks.RunDeferredKeepsInv` | src/lib/libevent/libevent-2.0.21-stable/bufferevent.c:132-163 | a run of the queue entry keeps the accounting |
| `DeferredCallbacks.EveryHistoryKeepsInv` | src/lib/libevent/libevent-2.0.21-stable/bufferevent.c:132-269 | every history keeps the accounting |
| `DeferredCallbacks.QuiescentPoints` | src/lib/libevent/libevent-2.0.21-stable/bufferevent.c:132-269 | at every quiescent point of every history with re-entrant callbacks: the count is the owners plus one if queued; destruction happens once, when it is zero; a pending notification whose callback stayed installed is queued; no callback starts after `bufferevent_free` |
| `DeferredCallbacks.DestroyedExactlyWhen` | src/lib/libevent/libevent-2.0.21-stable/bufferevent.c:605-684 | over every history: the owners are what the calls performed, those of the callbacks included, make of the one at the start, and the bufferevent is destroyed exactly when none is left and nothing is queued |
| `DeferredCallbacks.LastFreeDestroys` | src/lib/libevent/libevent-2.0.21-stable/bufferevent.c:675-682 | the last owner's call destroys at once if nothing is queued, and otherwise the next run does, without starting a callback |
| `DeferredCallbacks.DestroyedIsFinal` | src/lib/libevent/libevent-2.0.21-stable/bufferevent.c:604-666 | nothing changes a bufferevent that was destroyed |
| `DeferredCallbacks.RaisesAreToldOnce` | src/lib/libevent/libevent-2.0.21-stable/bufferevent.c:132-269 | callbacks are set in a quiet state, then anything is raised in any order and number: if they do nothing themselves, the next run tells exactly what was raised of the kinds installed, each once, CONNECTED first, then reading, writing, and the union of the other events with the last error; the state is quiet again |
| `DeferredCallbacks.RaiseIsDelivered` | src/lib/libevent/libevent-2.0.21-stable/bufferevent.c:219-269 | a notification of any of the three kinds raised at a quiescent point is told by the next run, exactly if its callback is still installed when its turn comes; CONNECTED comes before all others, and the last call tells at least the events raised |
| `DeferredCallbacks.Bufferevent.constructor` | src/lib/libevent/libevent-2.0.21-stable/bufferevent.c:271-341 | one reference, nothing pending |
| `DeferredCallbacks.Bufferevent.ScheduleDeferred` | src/lib/libevent/libevent-2.0.21-stable/bufferevent.c:210-216 | takes a reference for the queue |
| `DeferredCallbacks.Bufferevent.RunReadcb` | src/lib/libevent/libevent-2.0.21-stable/bufferevent.c:219-234 | sets the pending flag and queues the entry unless it is queued |
| `DeferredCallbacks.Bufferevent.RunWritecb` | src/lib/libevent/libevent-2.0.21-stable/bufferevent.c:236-251 | the same for writing |
| `DeferredCallbacks.Bufferevent.RunEventcb` | src/lib/libevent/libevent-2.0.21-stable/bufferevent.c:253-269 | the events are added to those pending and the error is remembered |
| `DeferredCallbacks.Bufferevent.SetCallbacks` | src/lib/libevent/libevent-2.0.21-stable/bufferevent.c:343-356 | replaces the three callbacks |
| `DeferredCallbacks.Bufferevent.DecrefAndUnlock` | src/lib/libevent/libevent-2.0.21-stable/bufferevent.c:604-666 | the last reference destroys, exactly once |
| `DeferredCallbacks.Bufferevent.FreeBufferevent` | src/lib/libevent/libevent-2.0.21-stable/bufferevent.c:675-682 | takes the callbacks away and drops a reference |
| `DeferredCallbacks.Bufferevent.RunDeferredCallbacks` | src/lib/libevent/libevent-2.0.21-stable/bufferevent.c:132-163 | the run in the code has the effect of the specified stages, with any callbacks |
| `FilterChain.DecrefCascades` | src/lib/libevent/libevent-2.0.21-stable/bufferevent.c:604-666 | for any counts in a chain of any length: the call destroys exactly the longest run of bufferevents from the top whose references run out, each once; the next one keeps what it has left, the others are untouched |
| `FilterChain.UnlockedChainShares` | src/lib/libevent/libevent-2.0.21-stable/bufferevent.c:695-729 | on a wholly unlocked chain of any length success leaves one shared lock, owned by the top alone, and changes nothing else; it fails only without a lock to be had |
| `FilterChain.LockedUnderlyingIsAdopted` | src/lib/libevent/libevent-2.0.21-stable/bufferevent.c:707-710 | over a locked underlying bufferevent the top adopts its lock without owning it, and nothing else changes |
| `FilterChain.GivenLockStops` | src/lib/libevent/libevent-2.0.21-stable/bufferevent.c:717-725 | a lock handed down goes to all bufferevents above the first one that has a lock, without ownership, and changes nothing from there on |
| `FilterChain.SharesOneLockExactlyWhen` | src/lib/libevent/libevent-2.0.21-stable/bufferevent.c:695-729 | from an unlocked top the whole chain shares one lock afterwards exactly when all below was unlocked or already shared one |
| `FilterChain.TwoLocksWitness` | src/lib/libevent/libevent-2.0.21-stable/bufferevent.c:695-729 | two unlocked bufferevents over a locked one end up with two locks |
| `FilterChain.FilterBev.constructor` | src/lib/libevent/libevent-2.0.21-stable/bufferevent.c:271-341 | one reference, no lock |
| `FilterChain.FilterBev.DestructUnderlying` | src/lib/libevent/libevent-2.0.21-stable/bufferevent_filter.c:214-245 | with close-on-free the underlying loses a second reference if it has two |
| `FilterChain.FilterBev.DecrefAndUnlock` | src/lib/libevent/libevent-2.0.21-stable/bufferevent.c:604-666 | the recursive code on linked bufferevents computes `FilterChain.Decref` of the chain |
| `FilterChain.FilterBev.EnableChainLocking` | src/lib/libevent/libevent-2.0.21-stable/bufferevent.c:695-729 | the recursive code computes `FilterChain.EnableLocking` of the chain |
| `ScatterGather.SlicesDescribePrefix` | src/lib/libevent/libevent-2.0.21-stable/buffer_iocp.c:203-220 | the descriptor lengths of a write cut a prefix out of the contents, of length the smaller of what was asked for and the data of the first 16 chains |
| `ScatterGather.ReceivedConserves` | src/lib/libevent/libevent-2.0.21-stable/buffer_iocp.c:112-122 | as many bytes are handed to the chains as arrived and fit |
| `ScatterGather.ReceivedInOrder` | src/lib/libevent/libevent-2.0.21-stable/buffer_iocp.c:112-122 | a chain receives something only when all chains before it are full |
| `ScatterGather.LastVisitedReceives` | src/lib/libevent/libevent-2.0.21-stable/buffer_iocp.c:113-122 | when everything fits, the last chain visited is the last one that receives data |
| `ScatterGather.AfterReadAdds` | src/lib/libevent/libevent-2.0.21-stable/buffer_iocp.c:112-122 | each offset grows by what the chain received, and no other chain changes |
| `ScatterGather.AfterReadSum` | src/lib/libevent/libevent-2.0.21-stable/buffer_iocp.c:112-129 | the sum of the offsets grows by what arrived and fits |
| `ScatterGather.AfterReadLast` | src/lib/libevent/libevent-2.0.21-stable/buffer_iocp.c:113-122 | after everything fitted the chain pointed to is the last one with data |
| `ScatterGather.FlattenAppended` | src/lib/libevent/libevent-2.0.21-stable/buffer_iocp.c:112-122 | bytes put behind the data of the chains come in order behind all contents |
| `ScatterGather.DrainTakesPrefix` | src/lib/libevent/libevent-2.0.21-stable/buffer.c:987-1014 | dropping whole chains and cutting the rest off the next one drains exactly the first n bytes |
| `ScatterGather.SumAfterDrain` | src/lib/libevent/libevent-2.0.21-stable/buffer.c:987-1014 | after a drain that leaves something the lengths add up and the last chain with data is the same |
| `ScatterGather.StopTakesPrefix` | src/lib/libevent/libevent-2.0.21-stable/buffer.c:988-1014 | wherever the loop stops, also at a chain pinned for reading, exactly the first n bytes are drained |
| `ScatterGather.AfterStop` | src/lib/libevent/libevent-2.0.21-stable/buffer.c:988-1014 | there too the lengths add up, and the last chain with data is the same, or the pinned one if all went |
| `ScatterGather.VecsReachLast` | src/lib/libevent/libevent-2.0.21-stable/buffer.c:2029-2038 | descriptors reach the last chain exactly when the chains before it cannot hold what is asked for |
| `ScatterGather.VecsOfferAll` | src/lib/libevent/libevent-2.0.21-stable/buffer.c:2029-2038 | when there is room the descriptors offer exactly what is asked for |
| `ScatterGather.ExpandedIsEnough` | src/lib/libevent/libevent-2.0.21-stable/buffer.c:1837-1942 | after an expansion the first 16 chains with space have room for what is asked for |
| `ScatterGather.ExpansionAddsOne` | src/lib/libevent/libevent-2.0.21-stable/buffer.c:1837-1942 | when the room does not suffice, one chain is added that just makes up for what is missing: behind all if fewer than 16 have space, or in place of the empty ones, of which only a space behind data stays |
| `ScatterGather.CapacityIsLeast` | src/lib/libevent/libevent-2.0.21-stable/buffer.c:154-181 | a chain takes the least doubling of 1024 bytes that holds its header and what is asked for |
| `ScatterGather.PinsMatchExactlyWhen` | src/lib/libevent/libevent-2.0.21-stable/buffer_iocp.c:267-287 | the chains pinned are those described unless the spaces before the last of them already suffice |
| `ScatterGather.PinsMatchOnEmpty` | src/lib/libevent/libevent-2.0.21-stable/buffer_iocp.c:267-287 | in an empty buffer they are unless nothing is asked for |
| `Chains.Chain.constructor` | src/lib/libevent/libevent-2.0.21-stable/buffer.c:154-181 | an empty chain with its memory |
| `Chains.Chain.Free` | src/lib/libevent/libevent-2.0.21-stable/buffer.c:183-189 | a pinned chain is only marked, another one is given back |
| `Chains.Chain.Unpin` | src/lib/libevent/libevent-2.0.21-stable/buffer.c:330-337 | a marked chain is given back when its last pin goes, whichever that is |
| `OverlappedBuffer.Overlapped.constructor` | src/lib/libevent/libevent-2.0.21-stable/buffer_iocp.c:150-167 | an empty valid buffer with one reference |
| `OverlappedBuffer.Overlapped.PinRelease` | src/lib/libevent/libevent-2.0.21-stable/buffer_iocp.c:81-93 | exactly the chains of the request are unpinned, and those marked are given back once |
| `OverlappedBuffer.Overlapped.DescribeForWrite` | src/lib/libevent/libevent-2.0.21-stable/buffer_iocp.c:201-220 | the loop pins the chains it describes and no others, and sets the descriptor lengths of `Slices` |
| `OverlappedBuffer.Overlapped.BeginWrite` | src/lib/libevent/libevent-2.0.21-stable/buffer_iocp.c:195-223 | the buffer is frozen, referenced, and exactly n_buffers chains from its first one are pinned |
| `OverlappedBuffer.Overlapped.DescriptorsArePrefix` | src/lib/libevent/libevent-2.0.21-stable/buffer_iocp.c:192-222 | the bytes the descriptors point at, concatenated, are exactly a prefix of the contents, of length the smaller of the clipped request and the data of the first 16 chains |
| `OverlappedBuffer.Overlapped.AbandonWrite` | src/lib/libevent/libevent-2.0.21-stable/buffer_iocp.c:228-233 | after an error of the system call pins, freeze flag and count are back |
| `OverlappedBuffer.Overlapped.LaunchWrite` | src/lib/libevent/libevent-2.0.21-stable/buffer_iocp.c:169-241 | refused while frozen or writing, 0 on an empty buffer; otherwise a write is in flight exactly when the call was accepted, and everything is as before if not. An accepted write describes exactly the first bytes of the contents: as many as the caller allows, a negative limit being none, and no more than the first 16 chains hold |
| `OverlappedBuffer.Overlapped.FreeAll` | src/lib/libevent/libevent-2.0.21-stable/buffer.c:977-980 | every chain is given back, or marked if pinned |
| `OverlappedBuffer.Overlapped.FreeFront` | src/lib/libevent/libevent-2.0.21-stable/buffer.c:988-1008 | exactly the chains drained whole are given back or marked, up to the first one pinned for reading; there nothing is left to drain |
| `OverlappedBuffer.Overlapped.DrainFront` | src/lib/libevent/libevent-2.0.21-stable/buffer.c:987-1014 | the list restarts at the first chain with bytes left, or at the first one pinned for reading if none are; the contents lose exactly their first bytes |
| `OverlappedBuffer.Overlapped.Drain` | src/lib/libevent/libevent-2.0.21-stable/buffer.c:957-1024 | refused while the start is frozen; otherwise the contents lose exactly their first bytes and the chains drained whole are gone; a read in flight keeps its chains and descriptors, and is lost exactly if no chain is left |
| `OverlappedBuffer.Overlapped.ReadSurvives` | src/lib/libevent/libevent-2.0.21-stable/buffer.c:988-1014 | the descriptors of a read in flight still describe the space behind the data after a drain |
| `OverlappedBuffer.Overlapped.DrainValid` | src/lib/libevent/libevent-2.0.21-stable/buffer.c:957-1024 | draining a valid buffer at any time, also during a read or a write, leaves it valid, except when everything is drained during a read that pinned no chain |
| `OverlappedBuffer.Overlapped.CommitWrite` | src/lib/libevent/libevent-2.0.21-stable/buffer_iocp.c:136-148 | the contents lose the bytes sent; chains drained while pinned are given back exactly once, and pins, freeze flag, count and progress bit are as before the launch |
| `OverlappedBuffer.Overlapped.FillChains` | src/lib/libevent/libevent-2.0.21-stable/buffer_iocp.c:112-122 | the loop on linked chains computes `AfterRead` of their offsets and moves the pointer to the last chain visited |
| `OverlappedBuffer.Overlapped.ContentsGrow` | src/lib/libevent/libevent-2.0.21-stable/buffer_iocp.c:109-122 | moving the offsets up appends the bytes in the described memory to the contents |
| `OverlappedBuffer.Overlapped.Receive` | src/lib/libevent/libevent-2.0.21-stable/buffer_iocp.c:107-122 | the bytes that arrived come right behind the contents, in the order of the descriptors |
| `OverlappedBuffer.Overlapped.CommitRead` | src/lib/libevent/libevent-2.0.21-stable/buffer_iocp.c:95-134 | total_len is the sum of the offsets exactly when no more arrived than the descriptors offer; then the buffer is valid, the contents grew by exactly the bytes in the described memory, and pins, freeze flag, count and progress bit are as before the launch |
| `OverlappedBuffer.Overlapped.CountSpace` | src/lib/libevent/libevent-2.0.21-stable/buffer.c:1858-1883 | the scan realigns empty chains only, and counts the chains with space and the bytes |
| `OverlappedBuffer.Overlapped.MeasureSpace` | src/lib/libevent/libevent-2.0.21-stable/buffer.c:1858-1883 | the count tells whether the first 16 chains with space have room, and contents and spaces do not change |
| `OverlappedBuffer.Overlapped.StartList` | src/lib/libevent/libevent-2.0.21-stable/buffer.c:1847-1856 | an empty buffer gets one chain large enough |
| `OverlappedBuffer.Overlapped.AppendChain` | src/lib/libevent/libevent-2.0.21-stable/buffer.c:1888-1902 | one more chain large enough for what is missing is put at the end; contents and list stay sound |
| `OverlappedBuffer.Overlapped.PutChain` | src/lib/libevent/libevent-2.0.21-stable/buffer.c:1888-1941 | a new chain behind those that stay keeps the contents, and gives the spaces at the end that the read is launched with |
| `OverlappedBuffer.Overlapped.FreeEmpties` | src/lib/libevent/libevent-2.0.21-stable/buffer.c:1917-1921 | the empty chains behind the data are given back once each |
| `OverlappedBuffer.Overlapped.ReplaceEmpties` | src/lib/libevent/libevent-2.0.21-stable/buffer.c:1903-1941 | the empty chains are replaced by one large enough, or by none without memory; contents and list stay sound |
| `OverlappedBuffer.Overlapped.Splice` | src/lib/libevent/libevent-2.0.21-stable/buffer.c:1923-1939 | relinking keeps the list, its length, its last chain and its last chain with data |
| `OverlappedBuffer.Overlapped.ExpandFast` | src/lib/libevent/libevent-2.0.21-stable/buffer.c:1837-1942 | fails exactly when a chain is needed and there is no memory; otherwise the spaces at the end are those of `Expanded`; contents never change and chains taken off are given back |
| `OverlappedBuffer.Overlapped.DescribeSpaces` | src/lib/libevent/libevent-2.0.21-stable/buffer.c:2029-2038 | the descriptors are for the free space of the chains, in order, with the lengths of `Vecs` |
| `OverlappedBuffer.Overlapped.SetupVecs` | src/lib/libevent/libevent-2.0.21-stable/buffer.c:2008-2042 | the same from the first chain with space on, which is returned |
| `OverlappedBuffer.Overlapped.PinForRead` | src/lib/libevent/libevent-2.0.21-stable/buffer_iocp.c:282-286 | all chains from there to the end are pinned and counted |
| `OverlappedBuffer.Overlapped.BeginRead` | src/lib/libevent/libevent-2.0.21-stable/buffer_iocp.c:269-287 | the assertion on the number of pinned chains holds exactly when all of them are described; then exactly these are pinned |
| `OverlappedBuffer.Overlapped.SubmitRead` | src/lib/libevent/libevent-2.0.21-stable/buffer_iocp.c:289-303 | the read is in flight exactly when the system call accepted it, and everything is back if not |
| `OverlappedBuffer.Overlapped.LaunchRead` | src/lib/libevent/libevent-2.0.21-stable/buffer_iocp.c:243-307 | which of its five outcomes a call has, and what each leaves behind: contents never change, a started read offers exactly what was asked for, a failed one restores pins, freeze flag and count |
| `OverlappedBuffer.Overlapped.AbortsExactlyWhen` | src/lib/libevent/libevent-2.0.21-stable/buffer_iocp.c:287 | the assertion fails exactly when the spaces before the last chain with space (or of the first 16) already suffice, or nothing is asked of an empty buffer |
| `OverlappedBuffer.Overlapped.OutcomesExactlyWhen` | src/lib/libevent/libevent-2.0.21-stable/buffer_iocp.c:243-307 | refused exactly while frozen or reading; without memory exactly if the first 16 spaces at the end do not suffice; the rest is up to the system call |
| `OverlappedBuffer.Overlapped.ShortRead` | src/lib/libevent/libevent-2.0.21-stable/buffer_iocp.c:95-307 | a read that brings less than its first descriptor offers leaves the buffer idle, with that chain shortened and all chains behind it still empty at its end |
| `OverlappedBuffer.Overlapped.ShortReadThenAbort` | src/lib/libevent/libevent-2.0.21-stable/buffer_iocp.c:287 | after such a short read into two chains or more, every later launch for at most the space left before the last of them fails the assertion |
| `OverlappedBuffer.Overlapped.TwoShortReads` | src/lib/libevent/libevent-2.0.21-stable/buffer_iocp.c:287 | such a state is reached from a new buffer: two short reads of any sizes, the second for more than was left, then a launch for at most what is left |
| `OverlappedBuffer.Overlapped.WriteCycle` | src/lib/libevent/libevent-2.0.21-stable/buffer_iocp.c:136-241 | launching and committing a write: one valid idle buffer becomes another; only the contents lose their first bytes |
| `OverlappedBuffer.Overlapped.ReadCycle` | src/lib/libevent/libevent-2.0.21-stable/buffer_iocp.c:95-307 | launching and committing a read of at most what was asked for: one valid idle buffer becomes another; the contents are extended by exactly as many bytes of the described memory as arrived, and total_len grows by their number |
| `LineReader.RawLineIsNextLine` | src/web_server/httpd.c:46-65 | one call delivers the next line of the normalised stream and leaves exactly the rest of it, also when CR and LF are at the edge of the buffer |
| `LineReader.RawLinesAreSplit` | src/web_server/httpd.c:46-65 | successive calls deliver the normalised stream split into lines, for every stream and buffer size |
| `LineReader.SplitIsDivision` | src/web_server/httpd.c:51-62 | the lines concatenate to the normalised stream; each has at most len-1 characters, a newline only in last position, and lacks one only when it is exactly len-1 long |
| `LineReader.DivisionIsUnique` | src/web_server/httpd.c:51-62 | there is no other way to divide a text into such lines |
| `LineReader.SkipHeaderStops` | src/web_server/httpd.c:67-76 | the header skipper stops after the first logical line whose length is a multiple of the line capacity |
| `LineReader.StopsAtBlankLineExactlyWhen` | src/web_server/httpd.c:67-76 | that is the end of the header exactly when no header line has a positive multiple of that many characters |
| `LineReader.FullLineEndsSkipping` | src/web_server/httpd.c:67-76 | a header line of exactly that length ends the skipping whatever follows |
| `LineReader.Socket.RecvLineChar` | src/web_server/httpd.c:52-59 | one character with a CR, and an LF after it, turned into LF |
| `LineReader.Socket.GetLine` | src/web_server/httpd.c:46-65 | buffer and stream afterwards are those of `RawLine`; the buffer is terminated; it would wait forever exactly when the line is not complete |
| `LineReader.Socket.ClearHeader` | src/web_server/httpd.c:67-76 | the stream afterwards is that of `SkipHeader`, and the result is 1 |
| `NacdSession.SwapTwice` | src/nacd_interaction/nacd_tcp_client.c:109-110 | a peer reads back the header fields put in |
| `NacdSession.HeaderOnWire` | src/nacd_interaction/nacd_tcp_client.c:105-223 | each message goes out with the type one below its state and the size of its structure, high byte first, and that many bytes are sent |
| `NacdSession.StepKeepsReached` | src/nacd_interaction/nacd_tcp_client.c:356-401 | each event takes a run from one of its four situations to another |
| `NacdSession.RunsStayReached` | src/nacd_interaction/nacd_tcp_client.c:417-436 | so does every sequence of events whose sends succeed |
| `NacdSession.RunAfter` | src/nacd_interaction/nacd_tcp_client.c:417-436 | what was logged before, such as the connect, makes no difference to a run |
| `NacdSession.EveryRunIsOrderly` | src/nacd_interaction/nacd_tcp_client.c:356-436 | from any of the four request states, for all replies and event sequences whose sends succeed: sends and receives alternate, the messages are a prefix of request then QUIT, at most three events are handled, and the session is released exactly once and not used after |
| `NacdSession.ReleasedExactlyWhen` | src/nacd_interaction/nacd_tcp_client.c:356-401 | an event releases the session exactly if it is a timeout, an error reply or the final reply; the state never goes back |
| `NacdSession.ErrorReplyEnds` | src/nacd_interaction/nacd_tcp_client.c:230-343 | a reply that begins with -ERR ends the session wherever one is awaited, whatever follows |
| `NacdSession.OtherReplyGoesOn` | src/nacd_interaction/nacd_tcp_client.c:230-343 | any reply that is shorter, or differs in one of the first four characters, takes a request on to QUIT and ends the session behind QUIT |
| `NacdSession.FirstReplyDecides` | src/nacd_interaction/nacd_tcp_client.c:27-30 | so after a request the session ends exactly on a reply that begins with -ERR, and else sends QUIT next |
| `NacdSession.TouchedExactlyWhen` | src/nacd_interaction/nacd_tcp_client.c:387-399 | from any known state the session is used after its release exactly when a delivered send fails |
| `NacdSession.FailedQuitTouchesReleased` | src/nacd_interaction/nacd_tcp_client.c:389-399 | a QUIT message that cannot be sent leads there from every request |
| `NacdSession.FailedStartIsStuck` | src/nacd_interaction/nacd_tcp_client.c:417-436 | a session whose first send fails is never armed and never released, whatever events come |
| `NacdSession.EveryRunStaysNear` | src/nacd_interaction/nacd_tcp_client.c:356-436 | from any state, with any results of sends and any events: a run sends the message of that state, or QUIT after a request, and nothing else |
| `NacdSession.RequestGoesOutExactlyWhen` | src/nacd_interaction/nacd_tcp_client.c:417-425 | for each of the four request types: it goes out in some run exactly when the session is started with the state one above the type, and then whenever the first send succeeds |
| `NacdSession.HeartBeatHandlerOnlyConnects` | src/nacd_interaction/nacd_tcp_client.c:540-541 | the heart-beat handler passes the message type, which is the connect state: in every run, whatever succeeds, the session stays there and only ever connects; a delivered event releases it exactly if it is a timeout, an error reply or a failed connect |
| `NacdSession.HeartBeatHandlerEnds` | src/nacd_interaction/nacd_tcp_client.c:540-541 | if no further connect on the socket succeeds, such a run handles at most two events, and the session is used after its release exactly if its event is left armed in it |
| `NacdSession.PasswordHandlerSendsHeartBeat` | src/nacd_interaction/nacd_tcp_client.c:577-578 | the password handler starts in the heart-beat state: whatever succeeds and whatever events come, it sends only heart-beat and QUIT, never the password message |
| `NacdSession.NacdClientSession.constructor` | src/nacd_interaction/nacd_tcp_client.c:554-555 | a zeroed session |
| `NacdSession.NacdClientSession.SendMessage` | src/nacd_interaction/nacd_tcp_client.c:86-228 | the message logged is that of the state, with the length of its structure and the bytes passed on |
| `NacdSession.NacdClientSession.RecvMessage` | src/nacd_interaction/nacd_tcp_client.c:230-343 | the state moves on exactly when the reply is no error; one that begins with -ERR gives the error result of the state, 31 to 36, and any other gives success |
| `NacdSession.NacdClientSession.CloseSession` | src/nacd_interaction/nacd_tcp_client.c:350-354 | the session is released |
| `NacdSession.NacdClientSession.OpenSession` | src/nacd_interaction/nacd_tcp_client.c:403-415 | the state is the connect state, and a connect that succeeds is logged |
| `NacdSession.NacdClientSession.MsgProcess` | src/nacd_interaction/nacd_tcp_client.c:356-401 | the code has the effect of `Handle`, including arming the event after a failed send |
| `NacdSession.NacdClientSession.ProcessTaskSession` | src/nacd_interaction/nacd_tcp_client.c:417-436 | behind whatever was logged before, the session becomes that of `Start`; a failed send leaves it neither armed nor released |

## Left out

- Arc4Random.Arc4.Uniform: gives up after a number of rejected words, because the loop of the code has no bound; `RandomCalls.UniformIsFirstAccepted` holds for every such number.
- RandomCalls.RunKeepsBudget: `arc4_count` is unbounded below before seeding succeeds; that it would wrap around after 2^31 requests without any seed is not modelled.
- OverlappedBuffer.Overlapped.LaunchRead: sizes from the largest `ssize_t` on, for which setting up the descriptors fails, are not modelled; an aborted call leaves the state unspecified.
- OverlappedBuffer.Overlapped.CommitRead: a negative number of bytes, which the code asserts not to happen, is not modelled.
- OverlappedBuffer.Overlapped.SetupVecs: a negative size, for which the code fails at once, is not modelled; it comes only from the sizes left out of `LaunchRead`.
- OverlappedBuffer.Overlapped.ReadCycle: what the operating system writes between launch and commit is whatever the described memory holds at the commit, `Incoming()`; how it gets there is not modelled.
- LineReader.Socket.GetLine: where the code would wait for more input forever the model reports `blocked`; a peer that sends more later is a longer stream.
- FilterChain.FilterBev.EnableChainLocking: the locks of the two evbuffers of a bufferevent are not modelled.
- Suspension.Bufferevent.SetWatermarks: low marks and the marks for writing are not modelled, as no operation of the model reads them.
- Suspension.Bufferevent.EnableEvents: the backend's enable function always succeeds, so there is no result code.
- Suspension.Bufferevent.DisableEvents: the backend's disable function always succeeds, so there is no result code.
- Suspension.Bufferevent.DisableEventsHard: the backend's disable function always succeeds, so there is no result code.
- Suspension.Bufferevent.ReadTimeout: the event callback it raises is not part of this state; raising one is `DeferredCallbacks.Bufferevent.RunEventcb`.
- Suspension.Bufferevent.WriteTimeout: the event callback it raises is not part of this state; raising one is `DeferredCallbacks.Bufferevent.RunEventcb`.
- DeferredCallbacks.Bufferevent.RunReadcb: the direct call of a bufferevent without deferred callbacks is not modelled, as it has no state to keep.
- DeferredCallbacks.Bufferevent.RunWritecb: the direct call of a bufferevent without deferred callbacks is not modelled, as it has no state to keep.
- DeferredCallbacks.Bufferevent.RunEventcb: the direct call of a bufferevent without deferred callbacks is not modelled, as it has no state to keep.
- FilterChain.FilterBev.DestructUnderlying: without close-on-free the code takes its callbacks off the underlying bufferevent and unsuspends it; neither is part of a chain's counts and locks.
- Seed sources of other platforms than Linux, the quality of entropy, and the locks around the generator.
- Failures of the backend's own enable and disable functions, the connecting backend of sockets, and timeouts other than their callbacks; event words are sets of bits.
- Callbacks run at once instead of deferred, and the variant that unlocks around each callback, which is the same with one thread.
- Evbuffer callbacks and their counters, immutable, memory-mapped and file chains, and freeing an evbuffer whose count reaches zero.
- SOAP messages, user look-up, request parsing and responses of the HTTP server, sockets and SSL: input and output or generated code.
- The contents of NACD messages beyond type and lengths, and the meaning of replies beyond the error test.
