# Verified models of openpilot's trusted byte handling

Four parts of the repository, modelled in Dafny and proved:

* **RSA verification** (`panda/crypto/rsa.c`): the in-place Montgomery loops on word arrays refine integer
  arithmetic, and that arithmetic is `a^e mod n`. The word count is arbitrary. `Montgomery.dfy` holds the integers,
  `Rsa.dfy` the arrays, `MontgomeryBound.dfy` and `RsaBound.dfy` the limits; the standard is RFC 8017.
* **The msgq ring queue** (`msgq_repo/msgq/msgq.cc`): first with each call as one step (`MsgqCalls`, `MsgqRecv`,
  `MsgqRuns`, `MsgqLossless`, `MsgqPaced`, `MsgqLapped`, `MsgqTakeover`), refined by a class that works on the shared
  segment (`MsgqQueue`); then with send and receive cut into their shared loads and stores and interleaved in any order
  (`MsgqSteps`, `MsgqInterleaved`, `MsgqSpared`), tied back to the whole calls (`MsgqAlone`).
* **The CAN transport** (`panda/board/can_comms.h`, `panda/python/__init__.py`, and the overlapping `memcpy` of
  `panda/board/libc.h`): two reassemblers that do not care how bytes are cut, and a packer and parser that undo
  each other (`CanPacket`, `CanComms`, `PandaHost`, `CanTransport`, `Libc`).
* **Streaming SHA-1 and the signed-image check** (`panda/crypto/sha.c`, `panda/crypto/sign.py`,
  `panda/board/bootstub.c`): the streaming form refines FIPS 180-4 (`Sha1Standard`, `Sha1`, and `Sha1Example` for the
  digest of abc), and is composed with RSA into the statement which files the bootstub accepts (`SignImage`,
  `Bootstub`).

`panda_tici/crypto/rsa.c`, `panda_tici/crypto/sha.c` and `panda_tici/board/can_comms.h` are copies of the files under
`panda/`, so the same models cover them. `Arithmetic.dfy` and `Words.dfy` hold powers, congruences, and the numbers
that words and bytes spell.

Code that updates state is modelled as methods on arrays and objects, each proved against a function of the old state;
the theorems are about those functions. Run `dafny verify dfyconfig.toml` to check everything.

## What the proofs turned up

* The comment at `panda/crypto/rsa.c:129` says the value is at most one modulus too large. For a reduced operand that
  holds under every key (`Montgomery.ResultCorrect`). For all operands it holds under a key if and only if its modulus
  has its top bit set (`MontgomeryBound.TopBitExactly`): otherwise the largest multiple of n below R, with a large
  representative of R^2 as rr, comes out unchanged, two moduli or more. With rr reduced it fails as well for one
  modulus of each length (`MontgomeryBound.OneSubtractionTooFew`), and `RsaBound.UnreducedSignature` gives such a key
  that `RSA_verify` lets through, and 128 signature bytes.
* `sign.py` with SETLEN writes the length over the first four bytes of the file it has just appended the version to. A
  body shorter than four bytes therefore loses its version tag, and the bootstub rejects its own signer's file:
  `Bootstub.SignedIsAccepted` is an equivalence for that reason.
* `pack_can_buffer` checks the data length but neither the address nor the bus: an address of 30 bits, or a bus
  from 8 to 127, packs without an exception (`CanTransport.PacksExactly`) and comes back as something else
  (`CanTransport.RoundTripExactlyInRange`).
* `msgq_repo/README.md:28` says a wrap leaves no reader pointing into the rest of the buffer. The code compares
  strictly, so the valid readers on the wrap tag itself, and no others there, stay valid (`MsgqLapped.WrapSparesExactly`),
  even one that the writer has lapped. A reader is lapped without losing its validity exactly when a send ends at its
  position (`MsgqLapped.LappedExactly`), and has then lost all it had not read (`MsgqLapped.LappedLoses`).
  `MsgqLapped.LappedUnnoticed` and `MsgqLapped.LappedOntoTheTag` are a run in which that happens. Such a reader misses
  messages, but neither mixes nor reorders them, in whole calls (`MsgqRuns.RunsDeliverInOrder`) or in interleaved steps
  (`MsgqInterleaved.RunsDeliverWholeMessages`). Being lapped and being invalidated are the only ways to lose a message
  without conflation (`MsgqSpared.SparedLosesNothing`). "Valid" in the invariants therefore means "on an intact chain of
  frames", not "at most one lap behind".
* The header comment at `panda/crypto/rsa.c:215-219` speaks of 2048 bits and SHA-256; the code supports 1024 bits and
  SHA-1 only, and the model follows the code.

## Model

| member | source | states |
|---|---|---|
| Rsa.SubM | panda/crypto/rsa.c:32-41 | the array afterwards is the old value less the modulus, modulo 2^(32 len) |
| Rsa.GeM | panda/crypto/rsa.c:44-53 | true exactly when the value of the array is at least the modulus |
| Rsa.MontMulAdd | panda/crypto/rsa.c:56-78 | the carry loop, with 64-bit A and B that never overflow, leaves exactly one Montgomery step of the integers: low word cleared, shifted, and one modulus taken off when a carry is left |
| Montgomery.LowWordCleared | panda/crypto/rsa.c:60-62 | the quotient d0 makes a*b + c + d0*n divisible by 2^32 |
| Montgomery.ShiftedBounds | panda/crypto/rsa.c:71-77 | the shifted sum is below 2R, one modulus brings an overflow below R, and c < b + n is kept before any subtraction |
| Montgomery.StepFacts | panda/crypto/rsa.c:56-78 | for c, b < R: 2^32 c' is congruent to c + a*b modulo n, c' < R, and c < b + n is kept |
| Rsa.CarriedDone | panda/crypto/rsa.c:71-77 | without a carry-out the array holds the step; with one, taking the modulus off modulo R makes it the step |
| Rsa.MontMul | panda/crypto/rsa.c:81-92 | with c apart from a, b and the key, the array c ends as the Montgomery product of the two values, whatever c held before |
| Montgomery.FoldFacts | panda/crypto/rsa.c:89-91 | folding in all words of a leaves R c congruent to a*b modulo n and c < b + n |
| Montgomery.MontFacts | panda/crypto/rsa.c:81-92 | for any a, b < R: R c is congruent to a*b modulo n and c < b + n |
| Montgomery.CancelR | panda/crypto/rsa.h:40-46 | a factor R can be cancelled modulo n, from n0inv = -1/n[0] alone |
| Montgomery.MontFirst | panda/crypto/rsa.c:116 | multiplying by rr takes a to a R modulo n |
| Montgomery.MontPowers | panda/crypto/rsa.c:118-119 | multiplying a^j R by a^k R gives a^(j+k) R |
| Montgomery.SquaringsPower | panda/crypto/rsa.c:117-120 | j squarings give a^(2^j) R |
| Montgomery.MontLast | panda/crypto/rsa.c:121 | multiplying a^j R by a drops the factor R and leaves a^(j+1) |
| Montgomery.RawFacts | panda/crypto/rsa.c:114-127 | before the last subtraction the value is congruent to a^e modulo n and below a + n |
| Rsa.SquareTimes | panda/crypto/rsa.c:117-120 | the squaring loop, alternating between the two arrays without ever aliasing operand and result, computes the squarings |
| Rsa.Exponentiate | panda/crypto/rsa.c:114-127 | for either exponent the array chosen to hold the result holds the value of the multiplication chain; every call is made without aliasing |
| Rsa.SubtractOnce | panda/crypto/rsa.c:129-132 | one modulus comes off exactly when the value is not below it |
| Rsa.FromBytes | panda/crypto/rsa.c:104-112 | the word array spells the number the big-endian bytes spell (OS2IP) |
| Rsa.ToBytes | panda/crypto/rsa.c:134-141 | the big-endian bytes spell the number the word array spells (I2OSP) |
| Rsa.ModPow | panda/crypto/rsa.c:96-142 | the byte array ends as the chain value less at most one modulus, for every key length |
| Montgomery.ResultExact | panda/crypto/rsa.c:129-132 | what modpow leaves is a^e mod n if and only if the value before the subtraction is below 2n |
| Montgomery.ResultCorrect | panda/crypto/rsa.c:96-142 | what modpow leaves is exactly a^e mod n when a < n, and for every a when n has its top bit set |
| MontgomeryBound.OneSubtractionTooFew | panda/crypto/rsa.c:129-132 | for every length and either exponent: with n = R/2 - 1 the operand R - 1 ends at 2n + 1 before the subtraction, and modpow does not leave a^e mod n |
| MontgomeryBound.TopBitExactly | panda/crypto/rsa.c:129-132 | for every key and either exponent: modpow leaves a^e mod n for every operand and every rr if and only if R <= 2n, that is, n has its top bit set |
| MontgomeryBound.LastMultipleStays | panda/crypto/rsa.c:81-92 | the largest multiple of n below R, times anything from R - n on, comes out as itself: the operand that refutes the comment for every modulus without its top bit |
| MontgomeryBound.FoldAtLeast | panda/crypto/rsa.c:89-91 | whatever is subtracted on the way, the product of a and b is at least a/R times any least that is neither above b nor above R - n |
| RsaBound.UnreducedSignature | panda/crypto/rsa.c:222-251 | a 32-word key that passes every gate of RSA_verify, n = 2^1023 - 1, and 128 signature bytes FF, for which modpow does not leave signature^e mod n |
| Rsa.ComparePadding | panda/crypto/rsa.c:264-291 | XOR-ing the hash in and comparing with the table says whether the bytes were 00 01, 105 bytes FF, 00 and the hash |
| Rsa.BlockValue | panda/crypto/rsa.c:188-205 | the padded block as a number is 2^1009 - 2^168 plus the number of the hash |
| Rsa.RsaVerify | panda/crypto/rsa.c:222-294 | returns 1 if and only if the length, hash length, key length and exponent are the supported ones and the signature opens to the padded hash; 0 otherwise |
| Rsa.OpensIsValid | panda/crypto/rsa.c:187-205 | opening to the padded hash is RSA verification as RFC 8017, section 5.2.2 defines it, when the signature is reduced or the top bit of n is set |
| Words.I2ospOs2ip | panda/crypto/rsa.c:104-112 | encoding the number of a byte string gives the byte string back (RFC 8017, sections 4.1 and 4.2) |
| Words.Os2ipI2osp | panda/crypto/rsa.c:134-141 | decoding an encoded number gives the number back |
| Sha1Standard.PaddingIsSmallest | panda/crypto/sha.c:126-129 | the padding of FIPS 180-4, section 5.1.1, is the smallest that fills whole blocks |
| Sha1.Context.Transform | panda/crypto/sha.c:36-84 | one block goes into the state as the compression of FIPS 180-4, section 6.1.2 |
| Sha1.Context.Expand | panda/crypto/sha.c:42-52 | the 80 words are the message schedule of the block |
| Sha1.ChooseIsCh | panda/crypto/sha.c:64 | d ^ (b & (c ^ d)) is the Ch of FIPS 180-4, section 4.1.1 |
| Sha1.MajorityIsMaj | panda/crypto/sha.c:68 | the expression the code uses for rounds 40 to 59 is the Maj of FIPS 180-4, section 4.1.1 |
| Sha1.Context.constructor | panda/crypto/sha.c:94-102 | a new context stands for the initial hash value and no bytes |
| Sha1.Context.Update | panda/crypto/sha.c:105-118 | the context afterwards stands for the old stream with the bytes fed to it, and the count has grown modulo 2^64 |
| Sha1.Context.UpdatePadding | panda/crypto/sha.c:126-129 | the pad loop ends, and has fed 80 and the zeros up to 56 modulo 64 |
| Sha1.Context.Final | panda/crypto/sha.c:121-170 | the first 20 bytes of the buffer are the digest of the stream padded with its length |
| Sha1.FeedConcat | panda/crypto/sha.c:105-118 | feeding two pieces is feeding their concatenation |
| Sha1.FeedIsChain | panda/crypto/sha.c:105-118 | a stream fed a message holds the chained hash of its whole blocks and the bytes left over |
| Sha1.ChunkedIsStandard | panda/crypto/sha.c:105-170 | any way of cutting a message below 2^61 bytes into updates ends in its FIPS 180-4 digest |
| Sha1.HashMessage | panda/crypto/sha.c:173-179 | SHA_hash returns the FIPS 180-4 digest |
| Sha1.FedIsStandard | panda/crypto/sha.c:173-179 | one update and the final call on a message below 2^61 bytes give its FIPS 180-4 digest |
| Sha1Standard.ConstantsAreRoots | panda/crypto/sha.c:63-70 | the four constants are the square roots of 2, 3, 5 and 10, times 2^30 and cut off |
| Sha1Example.ScheduleSteps | panda/crypto/sha.c:50-52 | word 16 and after of the schedule of the block of abc, each from the words 3, 8, 14 and 16 before it |
| Sha1Example.DigestOfAbc | panda/crypto/sha.c:36-102 | the digest of abc is a9993e364706816aba3e25717850c26c9cd0d89d, so that the initial value, the constants, the functions, the rotations, the schedule and the order of the bytes are those of the standard |
| Libc.Memcpy | panda/board/libc.h:32-61 | for every length, alignment and overlap with the destination not inside the source, the memory ends as an ideal move leaves it |
| Libc.WordIsFourBytes | panda/board/libc.h:41-52 | a word loaded and stored a word apart is four bytes copied in a row |
| Libc.ForwardCopyMoves | panda/board/libc.h:57-59 | copying forwards is the ideal move unless the destination starts strictly inside the source |
| Libc.MovesExactlyWhenForwardable | panda/board/can_comms.h:31 | that condition is exact: otherwise some memory is copied wrongly |
| CanPacket.LengthTable | opendbc_repo/opendbc/safety/can.h:3 | the data lengths of the sixteen length codes |
| CanPacket.ChecksumClears | panda/python/__init__.py:47 | a header with the XOR of the other bytes as checksum XORs to zero as a whole |
| CanPacket.XorChanged | panda/python/__init__.py:30-34 | changing one byte changes the checksum by the XOR of the old and the new one |
| CanPacket.FieldsOfSerialized | panda_tici/board/can_declarations.h:15-25 | the bit fields read from the bytes of a packet are the packet |
| CanPacket.ParseSound | panda/board/can_comms.h:88-102 | cutting a stream into packets loses no byte |
| CanPacket.ParseUnique | panda/board/can_comms.h:88-102 | there is one way to cut a stream into whole packets and a partial one |
| CanPacket.ParseConcat | panda/board/can_comms.h:59-105 | cutting a stream in two parts with the partial packet carried over is cutting it whole |
| CanComms.WriteSide.Write | panda/board/can_comms.h:59-105 | the structures sent are those of the pending bytes and the transfer parsed in one go, and the partial packet left is pending; ptr + tail_size is its length and fits the buffer |
| CanComms.WriteSide.FinishPending | panda/board/can_comms.h:62-86 | the packet in the overflow buffer is completed and sent, or takes in the whole transfer |
| CanComms.WriteSide.NextPacket | panda/board/can_comms.h:89-101 | one turn of the loop sends a whole packet or keeps a partial one |
| CanComms.WriteSide.Reset | panda/board/can_comms.h:107-109 | the partial packet is dropped |
| CanTransport.CutsDoNotMatter | panda/board/can_comms.h:59-105 | over any transfers, what is sent and left pending is what one transfer of the whole stream would send and leave |
| CanComms.ReadSide.Read | panda/board/can_comms.h:23-54 | the bytes put out, the tail kept and the packets left are those of one read of the tail and the queue |
| CanComms.ReadSide.SendTail | panda/board/can_comms.h:26-33 | as much of the tail as fits goes out and the rest moves to the front, by the overlapping memcpy |
| CanComms.ReadSide.PopPacket | panda/board/can_comms.h:38-50 | one turn of the loop puts a packet out, whole or cut at the limit |
| CanComms.ReadConserves | panda/board/can_comms.h:23-54 | a read conserves bytes, and comes up short only when tail and queue are empty |
| CanComms.RunConserves | panda/board/can_comms.h:23-54 | over any run of arrivals and reads, the output, the tail and the queue together are everything that arrived |
| PandaHost.CalculateChecksum | panda/python/__init__.py:29-33 | the XOR of all bytes |
| PandaHost.PackHeader | panda/python/__init__.py:38-47 | the header makes the packed frame, or the same exception is raised |
| PandaHost.PackCanBuffer | panda/python/__init__.py:35-54 | the buffers hold the packed frames, closed by chunking; the first bad frame raises its exception |
| PandaHost.BuffersFlatten | panda/python/__init__.py:49-52 | chunking loses and reorders nothing |
| PandaHost.BufferSizes | panda/python/__init__.py:51-52 | without chunking there is one buffer; with it every closed one holds 257 to 326 bytes |
| PandaHost.PackedIsSerialized | panda/python/__init__.py:37-50 | packing a frame in range lays out the bit fields of the wire structure, checksum included |
| PandaHost.UnpackCanBuffer | panda/python/__init__.py:56-85 | the frames of the whole packets and the remainder, or the assertion error, exactly as the stream parses |
| PandaHost.DecodeSerialized | panda/python/__init__.py:62-72 | unpacking reads every field of a packet back, with the marks on the bus |
| PandaHost.PackedStandard | panda/python/__init__.py:39-50 | the empty frame for address 0x123 on bus 0 is 00 18 09 00 00 11 |
| PandaHost.PackedLongest | panda/python/__init__.py:39-50 | the last standard address, 0x7FF, packs without the extended flag |
| PandaHost.PackedExtended | panda/python/__init__.py:39-50 | the first extended address, 0x800, with the FD flag and a byte on bus 2, is 15 04 40 00 00 FA AB |
| PandaHost.MarkedBytes | panda/python/__init__.py:64-72 | a returned frame of bus 2 decodes to bus 130, a rejected one to 194 |
| PandaHost.Panda.CanRecv | panda/python/__init__.py:720-730 | failed bulk reads are retried; what is unpacked is the overflow with the bytes of the first that succeeds, and the remainder becomes the overflow, which a failed assertion leaves as it was |
| CanTransport.ReadsDoNotMatter | panda/python/__init__.py:729 | reading in any pieces with the overflow carried over is unpacking the whole |
| CanTransport.HostToDevice | panda/python/__init__.py:35-54 | frames in range, packed and cut into any transfers, are sent by the device one structure each, in order, with the right fields, and nothing stays pending |
| CanTransport.DeviceToHost | panda/board/can_comms.h:23-54 | whatever sizes the host asks for and receives, it recovers exactly the frames of a front part of the packets, and all of them once the device is drained |
| CanTransport.RoundTrip | panda/python/__init__.py:56-85 | frames in range come back from unpacking unchanged |
| CanTransport.UnpacksExactly | panda/python/__init__.py:56-83 | whole packets and a partial one unpack without the assertion failing if and only if every whole packet sums to zero |
| CanTransport.DamageIsNoticed | panda/python/__init__.py:78 | any one byte of any packed frame changed, its length code kept, makes receiving end in the assertion failure, however the bytes are cut and whatever partial packet follows |
| CanTransport.PacksExactly | panda/python/__init__.py:38-42 | a frame packs if and only if its length has a code and its bus is from 0 to 127, whatever the address |
| CanTransport.PacksOutOfRange | panda/python/__init__.py:38-42 | an address of 30 bits packs, and so does a bus of four |
| CanTransport.RoundTripExactlyInRange | panda/python/__init__.py:35-54 | frames that pack at all come back unchanged if and only if every address has 29 bits and every bus 3; the packer checks neither |
| MsgqLayout.AlignAfter | msgq_repo/msgq/msgq.h:10 | aligning behind an aligned position adds the aligned length |
| MsgqLayout.TagReads | msgq_repo/msgq/msgq.cc:376-377 | a stored 64-bit tag reads back, -1 included |
| MsgqQueue.Segment.constructor | msgq_repo/msgq/msgq.cc:86-146 | a new segment of less than 2^32 - 1 bytes is a zero-filled queue |
| MsgqQueue.Segment.InvalidateReaders | msgq_repo/msgq/msgq.cc:277-284 | the scan clears exactly the flags of the readers in the range whose cycle is not the writer's |
| MsgqQueue.Segment.WrapAround | msgq_repo/msgq/msgq.cc:251-270 | the wrap leaves the tag, the invalidations and the writer at the start of the next cycle |
| MsgqQueue.Segment.PutMessage | msgq_repo/msgq/msgq.cc:273-302 | the frame, the invalidations and the advanced writer |
| MsgqQueue.Endpoint.ResetReader | msgq_repo/msgq/msgq.cc:72-76 | the reader is valid and at the writer |
| MsgqQueue.Endpoint.InitPublisher | msgq_repo/msgq/msgq.cc:155-168 | the publisher takes over and every subscriber is gone |
| MsgqQueue.Endpoint.InitSubscriber | msgq_repo/msgq/msgq.cc:179-227 | the next slot, after an eviction when there is none, with a reset reader |
| MsgqQueue.Endpoint.Send | msgq_repo/msgq/msgq.cc:229-311 | the outcome and the whole new queue of a send |
| MsgqQueue.Endpoint.RecvPass | msgq_repo/msgq/msgq.cc:343-427 | one pass from start to a return or a goto start |
| MsgqQueue.Endpoint.Recv | msgq_repo/msgq/msgq.cc:343-427 | the goto loop ends, with the outcome and the queue of the whole receive |
| MsgqQueue.Endpoint.Ready | msgq_repo/msgq/msgq.cc:314-341 | the answer and the queue after resynchronising |
| MsgqQueue.Endpoint.AllReadersUpdated | msgq_repo/msgq/msgq.cc:469-477 | true exactly when there are readers and every valid one is where the writer is |
| MsgqQueue.LaidSendable | msgq_repo/msgq/msgq.cc:237-251 | in every reachable queue the writer is aligned and leaves room for a tag |
| MsgqCalls.SendKeeps | msgq_repo/msgq/msgq.cc:229-311 | a send keeps the invariant: intact frames of this cycle and of what is left of the one before, every valid reader on the chain |
| MsgqCalls.SendReader | msgq_repo/msgq/msgq.cc:253-285 | a reader still valid after a send has not moved and the message next for it has not gone back |
| MsgqCalls.InitPublisherKeeps | msgq_repo/msgq/msgq.cc:155-168 | a takeover keeps the invariant |
| MsgqCalls.InitSubscriberKeeps | msgq_repo/msgq/msgq.cc:179-227 | a new subscriber, with or without eviction, keeps the invariant and stands at the writer |
| MsgqCalls.PassAtWrap | msgq_repo/msgq/msgq.cc:385-390 | at the wrap tag a reader, lagging or not, goes to the start with the same message next |
| MsgqCalls.PassAtFrame | msgq_repo/msgq/msgq.cc:392-418 | anywhere else a pass takes the message that is next |
| MsgqRecv.PassProgress | msgq_repo/msgq/msgq.cc:343-427 | no pass fails an assertion, and one that starts over has come nearer to the end |
| MsgqRecv.RecvDelivers | msgq_repo/msgq/msgq.cc:343-427 | a plain receive returns exactly the message due, a conflated one the last sent, and either stands behind it |
| MsgqRecv.RecvResyncs | msgq_repo/msgq/msgq.cc:348-358 | an evicted or invalid reader is resynchronised and gets nothing |
| MsgqRecv.ConflatedRecv | msgq_repo/msgq/msgq.cc:399-406 | a conflated receive returns the last message or nothing, and a second one nothing |
| MsgqRecv.ReadyForetells | msgq_repo/msgq/msgq.cc:314-341 | the answer is whether the next receive returns a message |
| MsgqRecv.UpdatedIsCaughtUp | msgq_repo/msgq/msgq.cc:469-477 | when all readers are updated no valid reader has a message due |
| MsgqRecv.CaughtUpRecv | msgq_repo/msgq/msgq.cc:343-373 | then the next receive of any subscriber, valid, invalid or evicted, returns 0 |
| MsgqLossless.UpdatedMeansQuiet | msgq_repo/msgq/msgq.cc:469-477 | and over every run without a send nobody receives anything |
| MsgqRuns.StepKeeps | msgq_repo/msgq/msgq.cc:155-427 | every call by anyone keeps the invariant of the queue and of every subscriber |
| MsgqRuns.UnusedInv | msgq_repo/msgq/msgq.cc:86-146 | a new queue that nobody uses satisfies the invariant, so the theorems hold of every run from it |
| MsgqRuns.RunsDeliverInOrder | msgq_repo/msgq/msgq.cc:155-427 | over every run of whole calls each subscriber has received messages that were sent, byte for byte, at strictly increasing places |
| MsgqLossless.SendSpares | msgq_repo/msgq/msgq.cc:253-285 | a send with ample room leaves an unlapped reader valid, unlapped and with the same message next |
| MsgqLossless.CaughtUpIsAmple | msgq_repo/msgq/msgq.cc:235-237 | a subscriber that has read everything has ample room for any message that may be sent, because three such fit |
| MsgqLossless.CalmRunsLoseNothing | msgq_repo/msgq/msgq.cc:237-302 | over every run in which the unread framed bytes stay below size - 2M - 8 before each send, a plain subscriber loses nothing |
| MsgqPaced.OneReceivePerSend | msgq_repo/msgq/msgq.cc:235-237 | over every run without eviction or takeover in which a plain subscriber receives once between any two sends, it loses nothing, and after each such receive it has every message sent |
| MsgqLossless.WholeMeans | msgq_repo/msgq/msgq.cc:354-427 | losing nothing means having received every message since it started, in order, with the next one due |
| MsgqLossless.NewSubscriberWhole | msgq_repo/msgq/msgq.cc:179-227 | a new subscriber starts like that |
| MsgqLapped.WrapSparesExactly | msgq_repo/msgq/msgq.cc:257-264 | of the valid readers, a wrap spares exactly those no further than the wrap tag |
| MsgqLapped.LappedExactly | msgq_repo/msgq/msgq.cc:253-285 | a send leaves an unlapped reader valid but lapped if and only if it ends at the reader's position |
| MsgqLapped.LappedLoses | msgq_repo/msgq/msgq.cc:369-373 | such a reader has lost every message it had not read: nothing is due before the next send, and a receive returns 0 |
| MsgqLapped.LappedUnnoticed | msgq_repo/msgq/msgq.cc:277-284 | a run on a 64-byte ring after which a reader is valid with three messages unread and receives nothing |
| MsgqLapped.LappedOntoTheTag | msgq_repo/msgq/msgq.cc:257-264 | one more send, which wraps: the reader is valid on the wrap tag, two cycles behind, and receives the seventh message after the third |
| MsgqTakeover.SendsExactly | msgq_repo/msgq/msgq.cc:229-244 | a send is stopped exactly when another publisher has taken over, and fails its assertion exactly when three such messages do not fit; either way it changes nothing |
| MsgqTakeover.OnlyTheLastPublishes | msgq_repo/msgq/msgq.cc:229-235 | over every run, exactly the publishers before the last are stopped, and what they send changes neither queue nor history |
| MsgqTakeover.TakeoverEvicts | msgq_repo/msgq/msgq.cc:154-169 | after a takeover nobody holds a slot, and the next receive of anybody takes slot 0 at the writer and returns 0 |
| MsgqTakeover.TakeoverForgets | msgq_repo/msgq/msgq.cc:154-169 | over every run after a takeover, nobody receives a message that was sent before it |
| MsgqTakeover.NewSubscriberEvicts | msgq_repo/msgq/msgq.cc:189-225 | with fifteen slots in use a new subscriber gets slot 0 and everybody else has lost theirs; with fewer it gets the next one and nobody else is touched |
| MsgqTakeover.UpdatedExactly | msgq_repo/msgq/msgq.cc:469-477 | after every run the answer is true if and only if there are readers and every valid one has nothing left to receive and has not been lapped |
| MsgqInterleaved.TailRing | msgq_repo/msgq/msgq.cc:253-255 | the wrap tag keeps every other frame intact |
| MsgqInterleaved.TailReader | msgq_repo/msgq/msgq.cc:253-255 | and a reader in the middle of a message there keeps its grip on the bytes |
| MsgqInterleaved.TurnReader | msgq_repo/msgq/msgq.cc:266-270 | publishing the wrap keeps every reader placed, the one lapped exactly onto the tag included |
| MsgqInterleaved.SparedIsClear | msgq_repo/msgq/msgq.cc:277-284 | a reader that the scan leaves valid is out of the way of the frame |
| MsgqInterleaved.SubscriberClear | msgq_repo/msgq/msgq.cc:354-427 | and does not step into the way afterwards |
| MsgqInterleaved.AreaReader | msgq_repo/msgq/msgq.cc:287-293 | storing the tag and the bytes does not touch what such a reader reads |
| MsgqInterleaved.PublishReader | msgq_repo/msgq/msgq.cc:295-297 | publishing the frame keeps every reader placed |
| MsgqInterleaved.SizeLoaded | msgq_repo/msgq/msgq.cc:375-383 | the size a valid reader loads is genuine |
| MsgqInterleaved.SubscriberKeeps | msgq_repo/msgq/msgq.cc:343-427 | every step of a subscriber keeps its part of the invariant |
| MsgqInterleaved.StepKeeps | msgq_repo/msgq/msgq.cc:229-427 | every step of either side keeps the invariant |
| MsgqInterleaved.RunsDeliverWholeMessages | msgq_repo/README.md:39-54 | over every interleaving, what a subscriber has returned is a subsequence of what was published, byte for byte; no size assertion fails and nobody leaves the ring |
| MsgqSpared.StepWhole | msgq_repo/msgq/msgq.cc:229-427 | a step of either side that neither invalidates a subscriber without conflation nor laps it keeps it whole: the next message for it is the one published after the last it received |
| MsgqSpared.StepIntact | msgq_repo/msgq/msgq.cc:229-427 | every step keeps the ring without gaps: behind each message of the writer's cycle is the next one, up to the writer, and behind each of the last cycle likewise, up to its wrap tag |
| MsgqSpared.SparedLosesNothing | msgq_repo/README.md:20-54 | over every interleaving, from wherever a subscriber without conflation joins or resets: as long as it is neither invalidated nor lapped it receives exactly the next messages published, in order and none left out, and has them all whenever it stands at the writer between two sends |
| MsgqSpared.LappedMisses | msgq_repo/msgq/msgq.cc:276-297 | and the first send that laps it leaves it valid, at the writer, and short of at least one message |
| MsgqAlone.UndisturbedSend | msgq_repo/msgq/msgq.cc:229-311 | from wherever a run has come, the steps of a send without interruption are the whole call |
| MsgqAlone.UndisturbedPass | msgq_repo/msgq/msgq.cc:343-427 | and the steps of a receive without interruption, by a subscriber that holds its slot, are a pass of the whole call |
| SignImage.PackedReads | panda/crypto/sign.py:24-26 | a packed word reads back |
| Bootstub.Boot | panda/board/bootstub.c:50-84 | the check reaches good if and only if the length is in bounds, the version is right, and the release key, or the debug key where allowed, signed all but the first word |
| Bootstub.AcceptedExactly | panda/board/bootstub.c:50-75 | an application is started if and only if its first word is a length from 8 to 16760700, that many bytes end in VERS and a version of at least 2, and the 128 bytes behind them are an RSA signature in the sense of RFC 8017 of their hash, the first word left out, by the release key or, where allowed, the debug key |
| Bootstub.VersionReads | panda/crypto/sign.py:24-26 | a body of at least four bytes leaves the version tag where main looks for it |
| Bootstub.VersionOverwritten | panda/crypto/sign.py:26 | a shorter body has its tag overwritten by the length |
| Bootstub.SignatureOpens | panda/crypto/sign.py:34-37 | what the private key signs opens under the public key, given that the exponents undo each other |
| Bootstub.SignedFile | panda/crypto/sign.py:22-38 | without SETLEN the file is the body and 128 bytes that open to its hash; with it there is a file if and only if the length fits 32 bits |
| Bootstub.SignedIsAccepted | panda/board/bootstub.c:50-75 | a body signed with SETLEN by the holder of the release key is accepted if and only if it has at least four bytes and the signed area is within the bound |

## Left out

- Montgomery.ResultExact: the condition for one operand is on the value before the last subtraction; conditions that can be checked before the call are a < n (Montgomery.ResultCorrect) and, exact for the key, the top bit of n (MontgomeryBound.TopBitExactly).
- MontgomeryBound.TopBitExactly: right for every rr that represents R^2; for a key whose rr is fixed and reduced only the direction from the top bit, and one failing modulus of each length (MontgomeryBound.OneSubtractionTooFew), are shown.
- Sha1.HashMessage: messages below 2^31 bytes only, because the C function takes the length as an int; Sha1.ChunkedIsStandard covers all below 2^61 bytes.
- SignImage.Signature: always 128 bytes, so a modulus of more than 1024 bits, for which sign.py would write more, is not modelled.
- Bootstub.SignedIsAccepted: that the private exponent undoes the public one is an assumption on the key pair; cryptographic strength is not modelled.
- Bootstub.Boot: the reset of the hardware, the soft flasher and the jump are reduced to the answer good or fail; the flash is assumed to reach to the end of the signature where the length is in bounds.
- CanComms.WriteSide.Write: positions are unbounded, so a transfer whose length is within 78 bytes of 2^32 is not modelled; can_send and the safety hooks are reduced to the list of structures handed over, TX slots are left out.
- CanComms.ReadSide.Read: can_pop takes from a sequence of packets; how packets get there, and the interrupt locks around the queue, are not modelled.
- CanPacket.FieldsOfSerialized: the structure with 64 data bytes; the 8-byte variant for the STM32F4 is not modelled.
- CanTransport.DeviceToHost: popped packets are assumed to carry a correct checksum; the firmware code that sets it is not part of this model.
- PandaHost.Panda.CanRecv: how each bulk read ends is handed in, and some read succeeds; the pause between retries is left out.
- Libc.Memcpy: addresses are indices of one memory; memset and memcmp are left out as easy.
- MsgqQueue.Segment.constructor: the file, the mapping and the pointers into the header are reduced to a fresh zero-filled segment.
- MsgqQueue.Endpoint.InitSubscriber: uids are fresh values handed in, and the compare-and-swap, which only matters between two subscribers starting at once, always succeeds.
- MsgqRuns.RunsDeliverInOrder: messages are not empty; an empty one would fail the receiver's size assertion. Cycle counts are unbounded, so a wrap of the 32-bit count is not modelled.
- MsgqLossless.CalmRunsLoseNothing: sufficient for losing nothing; during such a run no publisher takes over and nobody is evicted.
- MsgqInterleaved.RunsDeliverWholeMessages: sequential consistency; msgq_reset_reader is one step, so its window between setting the flag and the pointer is not covered; the set of subscribers is fixed during a run, there is one publisher, and cycle counts are unbounded. A message too large for the queue, whose assertion stops the publisher, is not begun. Waking readers up does nothing.
- MsgqAlone.UndisturbedPass: subscribers in the interleaved model are never evicted, so that branch of a pass is not compared.
- msgq_poll, msgq_wait_for_subscriber, signals and timing; the ZMQ backend, the fake sockets and the bridge; SubMaster and PubMaster.
- USB, SPI and DFU transport, control requests, flash writing, board bring-up, the heartbeat in tick_handler.
- Everything of openpilot outside these files: driving models, controls, filters, parameters, logging and the user interface.
