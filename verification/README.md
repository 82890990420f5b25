# Verified model of the EX-word port

A Dafny model of the parts of the EX-word XD-B8600 port that decide something: its allocator, its
transfer protocol, its loader, its arithmetic and its input and display state machines. Hardware,
X11, USB and file calls appear only as what they let happen (packets, bytes read, waits that time
out, key states, interleavings), chosen freely, so every theorem holds for all of them.

`dafny verify dfyconfig.toml` checks everything.

| files | what they model |
|---|---|
| `HeapShape`, `HeapSteps`, `Heap` | the first-fit heap of `memmgr.c`: one array of 8-byte quanta, `base` as the address below the pool, blocks and free list as headers inside it |
| `DataBuffer` | the gap-accounted buffer of `databuffer.c` |
| `ObexHeaders`, `ObexTransfer`, `Obex` | the object layer of `obex.c` (a modified IrOBEX 1.2): header encoding and parsing, the body split over packets, the objects in place |
| `ObexBuffers` | the same send side, and reading back, on the linked lists and buffers the program uses, refined to `Obex` |
| `Crc`, `Loader`, `LoaderKeys` | the bitwise CRC-32, the payload packer, the loader and its key loops |
| `SoftFloat`, `SoftFloatSine`, `SoftFloatSum`, `Cipher` | the single-precision arithmetic of `crypt.c` on machine words, with real error bounds, the xor cipher, and how far the key generator reads |
| `KeyGenerator` | `get_xor_key`, and what its result depends on |
| `Framebuffer` | the refresh protocol of `exwordfb.c` over all interleavings |
| `Keypad`, `KeypadKeys`, `KeypadDriver`, `KeypadStuck` | the keypad and touch driver `exword-keypad.c`, as values, what a scan makes of every key, in place, and a run into its stuck state |
| `Subpad`, `SubpadTouch` | `subpad-mouse.c`: registers saved, changed and restored; debounce and latch |
| `Snake` | the game |
| `Taps` | tap selection of `renesas_sdhi_core.c` |
| `SquareRoot`, `Printf`, `Calendar` | `integer_sqrt`, `printi` with `atoi`, `my_mktime` |
| `Lists` | the circular lists of `list.h`, pointer by pointer |
| `Paths`, `UserKeys` | path clean-up and the `users.dat` records of the host tool |
| `StartGate` | the stop and resume protocol of `x11-start-gate.c` |
| `Bytes`, `Powers`, `Wrappers` | bytes and big-endian words, powers of two, optional values |

Code that changes state in place is a class or a method whose postcondition equates the new state
with a function or relation on values; the laws are lemmas about those functions and relations.

Where the code does less than it seems to promise, the model follows the code and the exact
condition is proved:

- a request near 2^32 bytes wraps the rounding sum of `memmgr_alloc` and gets a block too small for
  it (`Heap.QuantasHoldRequest`), and the room test of the pool passes whenever its sum wraps
  (`Heap.RoomTestIsExact`). The outcome `Overrun` marks the calls in which the C code would go on to
  write outside its memory; they are exactly characterised, and what happens then is not modelled;
- a body reached with one or two bytes of room wraps its chunk length (`ObexTransfer.TransferWrapsIff`;
  `ObexTransfer.HeaderStrandsBody` is such a queue);
- the last chunk of a body is not charged its header, and the non-header data of a connect or a path
  change is not charged at all: exactly when a packet is too long, and by how much at most, is
  `Obex.WireExceedsIff` and `Obex.WireBounded` (`ObexTransfer.HeaderBehindBodyOverflows` and
  `Obex.NonHeaderDataOverflows` are such packets);
- the parser checks the size of the value and not of the header, and can read behind a message
  (`ObexHeaders.ParseIgnoresStaleIff`; `ObexHeaders.ShortMessageReadsStale` is such a message);
- the one-packet flag fails once the queue is longer than a packet (`Obex.FlagKeepsOnePacketIff`);
- a negative infinity times a negative number is negative (`SoftFloat.ProductSignIff`), the sine of a
  large negative argument loses its sign (`SoftFloat.SineIsOddIff`), and a sum whose exponent
  overflows is not saturated (`SoftFloatSum.SumOverflowsIff`);
- the key generator reads past its scratch copy of a long key (`Cipher.StaysInScratchIff`);
- a mode request can leave a touch button pressed for good (`Keypad.ServiceSticksIff`,
  `Keypad.StuckForever`; `KeypadStuck.ButtonSticks` is a run that comes to it), and so can a shutdown
  of the subpad helper whose last release is refused (`SubpadTouch.ShutdownReleases`,
  `SubpadTouch.LostReleaseSticks`);
- zero-padded and right-padded numbers do not all read back (`Printf.PaddedReadsBackIff`), and
  reading back the largest ints relies on wrapping (`Printf.ReadsInRangeIff`);
- a stored name of 127 or more characters is not stepped over (`UserKeys.StepsOverIff`), and one of
  234 modulo 256 is never left (`UserKeys.WalkSticksIff`; `UserKeys.LongNameSticks` is such a file);
- food whose draws all lie on the snake stays under its head (`Snake.EatenFoodStaysIff`);
- the start gate leaves its parent stopped exactly if the waiter never finishes, because it was
  killed, was never born or waits for a silent server, and the server was started or the gate was
  killed first (`StartGate.QuietStrandsIff`; `StartGate.KilledWaiterStrands` and
  `StartGate.KilledGateStrands` are such runs).

The witnesses of the other conditions stand beside them in the table.

## Model

| member | source | states |
|---|---|---|
| HeapShape.BlockIsUnique | experiments/sysinfo/src/libc/memmgr.c:142-319 | every quantum of the claimed pool belongs to exactly one block, live or free |
| HeapShape.FreeListIsCanonical | experiments/sysinfo/src/libc/memmgr.c:264-319 | the free list, headers included, is determined by the live blocks and the top: the order in which blocks were freed leaves no trace |
| HeapShape.WalkReturns | experiments/sysinfo/src/libc/memmgr.c:264-319 | following `next` from `base` comes back to `base` after one step more than there are free blocks |
| HeapShape.WalkMeets | experiments/sysinfo/src/libc/memmgr.c:264-319 | each free block is met on that walk, at the step its rank by address gives |
| HeapShape.WalkIsStrict | experiments/sysinfo/src/libc/memmgr.c:264-319 | the walk goes strictly upward, so no free block is met twice |
| HeapSteps.FreeKeepsHeap | experiments/sysinfo/src/libc/memmgr.c:269-319 | splicing a live block in behind its predecessor and joining neighbours keeps the tiling, the ring and the absence of touching free blocks, and no other live block changes |
| HeapSteps.TakeWholeKeepsHeap | experiments/sysinfo/src/libc/memmgr.c:206-213 | unlinking a fitting block keeps the heap well formed and the other live blocks as they are |
| HeapSteps.TakeTailKeepsHeap | experiments/sysinfo/src/libc/memmgr.c:214-219 | cutting the tail off a free block keeps the heap well formed; the tail has the size asked for |
| HeapSteps.GrowKeepsHeap | experiments/sysinfo/src/libc/memmgr.c:142-166 | claiming fresh quanta at the top keeps the heap well formed |
| Heap.QuantasHoldRequest | experiments/sysinfo/src/libc/memmgr.c:186-191 | a request gets room for its bytes exactly if the 32-bit rounding sum does not wrap, and then not a quantum too much |
| Heap.LargestRequestGetsNothing | experiments/sysinfo/src/libc/memmgr.c:186-191 | the largest request is an input for which it does wrap |
| Heap.SizesAre | experiments/sysinfo/src/libc/memmgr.c:66-83 | the pools of the two kinds of device, and the least that is claimed from them, by number |
| Heap.ViewsAgree | experiments/sysinfo/src/libc/memmgr.c:177-238 | a header read as the bytes of a client, or the other way round, is the same header |
| Heap.RoomTestIsExact | experiments/sysinfo/src/libc/memmgr.c:148-163 | the coded room test is the true one exactly while the sum stays below 2^32; beyond, it always passes |
| Heap.WrappedRoomTestPasses | experiments/sysinfo/src/libc/memmgr.c:148-163 | a request near 2^32 passes in a pool of 64 KiB |
| Heap.SearchAdvances | experiments/sysinfo/src/libc/memmgr.c:200-237 | each step of the scan comes closer to its start, so it ends, and skips no fitting block |
| Heap.SearchEnds | experiments/sysinfo/src/libc/memmgr.c:225-236 | a scan that has come round has found that no free block fits |
| Heap.SearchFinds | experiments/sysinfo/src/libc/memmgr.c:200-223 | a scan that stops has found the first fitting block after `freep` |
| Heap.LiveBlocksAreDisjoint | experiments/sysinfo/src/libc/memmgr.c:142-319 | two live blocks never overlap and lie in the claimed pool |
| Heap.WriteInsideKeepsHeap | experiments/sysinfo/src/libc/memmgr.c:177-238 | a client that writes inside its block damages neither the heap nor another block |
| Heap.FreeUndoesAlloc | experiments/sysinfo/src/libc/memmgr.c:177-319 | freeing what an allocation returned restores the free list it found, headers included, if the pool was not extended |
| Heap.Manager.constructor | experiments/sysinfo/src/libc/memmgr.c:57-93 | the pool has the size the device calls for, and nothing is claimed |
| Heap.Manager.FindPlace | experiments/sysinfo/src/libc/memmgr.c:283-295 | the search of free ends at the predecessor by address, or at the link that wraps |
| Heap.Manager.Release | experiments/sysinfo/src/libc/memmgr.c:269-319 | the block leaves the live set, everything else is as before, and `freep` is its predecessor |
| Heap.Manager.GetMemFromPool | experiments/sysinfo/src/libc/memmgr.c:142-166 | null exactly if the pool lacks room; else one fresh free block at the top, merged with the block below if that is free |
| Heap.Manager.Scan | experiments/sysinfo/src/libc/memmgr.c:196-237 | the first fit behind `freep`, or, if none fits, the block that one extension of the pool leaves at the top |
| Heap.Manager.Alloc | experiments/sysinfo/src/libc/memmgr.c:177-238 | succeeds exactly if some free block fits or the pool tail suffices for one extension; the block is the tail of the first fit, or of the block that the extension leaves at the top; the next search begins at the node which the block cut comes behind; other live blocks keep their bytes; on failure the free list and the place of the search stay |
| Heap.Manager.Free | experiments/sysinfo/src/libc/memmgr.c:269-319 | only the block freed leaves the live set, and the next search begins at the node it came behind; null is ignored |
| Heap.Manager.ClientStore | experiments/sysinfo/src/libc/memmgr.c:177-238 | a byte written into a live block is the only byte that changes |
| Heap.Manager.Realloc | experiments/sysinfo/src/libc/memmgr.c:240-260 | exactly when it succeeds, the old bytes up to the smaller size are at the new address, the old block is gone and the next search begins at the node it came behind; on failure the old block is untouched; with null it is alloc, with size 0 it is free |
| DataBuffer.Buffer.constructor | tools/libexword/src/databuffer.c:31-49 | a new buffer is empty and all its room unassigned |
| DataBuffer.Buffer.Resize | tools/libexword/src/databuffer.c:58-117 | contents are cut at the end only if they no longer fit; room is given up in the order unassigned, tail, head; the four sizes sum to the allocation |
| DataBuffer.Buffer.Reuse | tools/libexword/src/databuffer.c:119-129 | the buffer is empty again and the allocation kept |
| DataBuffer.Buffer.ReserveBegin | tools/libexword/src/databuffer.c:131-157 | room appears in front of unchanged contents; the allocation grows by exactly what was missing |
| DataBuffer.Buffer.ReserveEnd | tools/libexword/src/databuffer.c:159-185 | room appears behind unchanged contents; the allocation grows by exactly what was missing |
| DataBuffer.Buffer.InsertBegin | tools/libexword/src/databuffer.c:187-194 | the contents are the new bytes and then the old ones |
| DataBuffer.Buffer.InsertEnd | tools/libexword/src/databuffer.c:196-203 | the contents are the old bytes and then the new ones |
| DataBuffer.Buffer.RemoveBegin | tools/libexword/src/databuffer.c:205-217 | the contents lose as many bytes in front as asked, or all |
| DataBuffer.Buffer.RemoveEnd | tools/libexword/src/databuffer.c:219-230 | the contents lose as many bytes at the end as asked, or all |
| ObexHeaders.RoundConsumes | tools/libexword/src/obex.c:435-525 | exactly when a round of the parse loop fails, for every kind of header, and that it otherwise consumes at least two bytes |
| ObexHeaders.EncodeIsHeader | tools/libexword/src/obex.c:695-792 | what addheader builds is one complete header (IrOBEX 1.2, section 2.1) whose payload is the value |
| ObexHeaders.SomeHeaders | tools/libexword/src/obex.c:725-771 | four headers, one of each kind, byte by byte |
| ObexHeaders.ParseHeader | tools/libexword/src/obex.c:435-526 | a complete header in front of anything is taken off whole |
| ObexHeaders.ParseFlatten | tools/libexword/src/obex.c:435-526 | a message made of complete headers is parsed into exactly those, in order |
| ObexHeaders.HintIsLength | tools/libexword/src/obex.c:435-526 | the length hint is the value of a length header received last, and stays without one |
| ObexHeaders.ParseIgnoresStaleIff | tools/libexword/src/obex.c:435-526 | what the parser makes of a message depends on the message alone exactly if every header it comes to lies in it whole, up to one that fails on its own |
| ObexHeaders.ShortMessageReadsStale | tools/libexword/src/obex.c:475-484 | a one-byte message is an input that is read past its end |
| ObexTransfer.FillAdvances | tools/libexword/src/obex.c:153-352 | every packet makes the queue smaller and leaves one that can be sent, so sending ends |
| ObexTransfer.FillFits | tools/libexword/src/obex.c:286-309 | with no header behind the body the headers of a packet never exceed the room the loop begins with |
| ObexTransfer.PacketOverflowsIff | tools/libexword/src/obex.c:286-309 | the headers of a packet take what sizes known beforehand say; they exceed the room the loop begins with exactly if a body ends in it that headers go along behind, and then by at most the three bytes of the chunk header not charged |
| ObexTransfer.FillEndsBody | tools/libexword/src/obex.c:153-199 | if the body comes last, a packet carries its end exactly if it empties the queue |
| ObexTransfer.FillDelivers | tools/libexword/src/obex.c:153-352 | receiving one packet and then the rest of the queue is receiving the whole queue |
| ObexTransfer.TransferFits | tools/libexword/src/obex.c:286-309 | with no header behind the body the headers of every packet of a transfer fit the room of a packet |
| ObexTransfer.TransferOversizedIff | tools/libexword/src/obex.c:286-309 | the headers of some packet of a transfer exceed the room of a packet exactly if sizes known beforehand say that its body ends where the headers behind it still go along |
| ObexTransfer.FillWrapsIff | tools/libexword/src/obex.c:186-309 | the headers of a packet can be put in exactly if its body, when reached, finds room for a chunk header |
| ObexTransfer.FillFailsIff | tools/libexword/src/obex.c:286-316 | a queue without a body is refused exactly if the loop comes to a header that the room does not hold and that is longer than the MTU |
| ObexTransfer.TransferDelivers | tools/libexword/src/obex.c:201-257 | what is fed back through the parse loop rebuilds every header and the body, whole and in order |
| ObexTransfer.OnlyLastEndsBody | tools/libexword/src/obex.c:153-352 | if the body comes last, only the last packet carries its end (IrOBEX 1.2, section 2.2.9), and it does |
| ObexTransfer.TransferWrapsIff | tools/libexword/src/obex.c:169-189 | a transfer fails exactly if its headers leave one or two bytes where the body begins |
| ObexTransfer.HeaderStrandsBody | tools/libexword/src/obex.c:169-189 | a two-byte header and a body at an MTU of 8 are such a queue |
| ObexTransfer.SomeChunks | tools/libexword/src/obex.c:169-199 | a body of three bytes in rooms of five and six, byte by byte |
| ObexTransfer.BodyAdvancesIff | tools/libexword/src/obex.c:153-199 | with room for a chunk header only, at an MTU of 7, a body never advances; with more it always does |
| ObexTransfer.HeaderBehindBodyOverflows | tools/libexword/src/obex.c:190-198 | a body of three bytes and a header behind it at an MTU of 10 are a queue with a packet that is too long |
| Obex.ParseKeepsReadable | tools/libexword/src/obex.c:435-526 | the parser queues only headers that getnextheader can read |
| Obex.WireShape | tools/libexword/src/obex.c:322-338 | every packet, byte by byte: numbered on modulo 256, the opcode with the final bit exactly from the last packet of the transfer on, the length less one, the non-header data in the first, then the headers |
| Obex.SinglePut | tools/libexword/src/obex.c:322-338 | a put without headers is the four bytes 0, 0x82, 0, 3 |
| Obex.WireExceedsIff | tools/libexword/src/obex.c:259-352 | some packet of an object is longer than the MTU exactly if its non-header data and the headers of its first packet take more than there is room for, both known beforehand, or a packet that ends the body is too long, which with no header behind the body none is |
| Obex.WireBounded | tools/libexword/src/obex.c:259-352 | no packet is longer than the MTU by more than a chunk header and, for the first, the non-header data |
| Obex.NonHeaderDataOverflows | tools/libexword/src/obex.c:274-277 | a path change with a header of six bytes at an MTU of 10 is sent as a packet of twelve bytes |
| Obex.TransferReadsBack | tools/libexword/src/obex.c:153-831 | headers of every kind and a body of any length, anywhere, added, sent in packets, received and read with getnextheader, come back with the same ids and values in the same order unless the body strands; the packets on the wire, non-header data included, fit the MTU exactly if the queue and the data say so beforehand |
| Obex.FlagKeepsOnePacketIff | tools/libexword/src/obex.c:695-792 | the one-packet flag keeps its promise exactly while what is queued fits one packet; after that the unsigned limit lets everything through |
| Obex.FlagLetsThrough | tools/libexword/src/obex.c:702-708 | with two hundred bytes of body queued at an MTU of 100 the flag lets through almost 2^32 bytes |
| Obex.Session.SetConnectInfo | tools/libexword/src/obex.c:621-625 | version and locale are those given |
| Obex.Object.constructor | tools/libexword/src/obex.c:633-671 | empty queues, and for a connect seven bytes of non-header data: version, flags, the receive MTU, two fixed bytes, locale |
| Obex.ConnectBytes | tools/libexword/src/obex.c:655-668 | the seven bytes of a connect |
| Obex.Object.SetNonHeaderData | tools/libexword/src/obex.c:833-847 | data of any length is taken exactly if none is set, which for a connect it is |
| Obex.Object.AddHeader | tools/libexword/src/obex.c:695-792 | accepted exactly within the limit, with the length and the result on 32-bit words for values of every size; else nothing changes |
| Obex.Object.SendBody | tools/libexword/src/obex.c:153-199 | the chunk fills the room and the rest stays queued, or all that is left goes out as the end of the body; with less room than a chunk header it fails |
| Obex.Object.FillPacket | tools/libexword/src/obex.c:262-322 | the headers taken are those the packet specification takes, and the queue keeps the rest |
| Obex.Object.Send | tools/libexword/src/obex.c:259-352 | number, opcode, final bit, length and payload of the packet, byte by byte, and the result for every acknowledgement |
| Obex.Object.Receive | tools/libexword/src/obex.c:435-530 | the receive state after the headers of any message, and the code returned |
| Obex.Object.ReceiveBody | tools/libexword/src/obex.c:201-257 | a chunk extends the body; the last one turns it into a header |
| Obex.Object.GetNextHeader | tools/libexword/src/obex.c:794-831 | the oldest header with its value, moved to the read list |
| Obex.Object.Request | tools/libexword/src/obex.c:849-861 | whatever the device answers, the packets sent are, byte for byte, those of the transfer, numbered on, with the non-header data in the first and the final bit from the last on; it is stranded only where the transfer is, and else the code is that of the first answer that ends the dialogue |
| Obex.DialogueStops | tools/libexword/src/obex.c:849-861 | every answer before the last acknowledges its packet by number and says continue (0x10); the last does not, and gives the result |
| Obex.DialogueOfOne | tools/libexword/src/obex.c:849-861 | a single answer gives its code, or -1 if its message is malformed |
| ObexBuffers.PutBody | tools/libexword/src/obex.c:153-199 | the message buffer gets a chunk of the body, or its end, from the header's buffer, which keeps the rest |
| ObexBuffers.SendBody | tools/libexword/src/obex.c:153-199 | on lists and buffers: the chunk goes to the message, and a header whose body has ended leaves the list; what the list then stands for is what the sequences say |
| ObexBuffers.TakeHeader | tools/libexword/src/obex.c:286-321 | one turn of the loop with the list's first header, for every kind of header |
| ObexBuffers.TurnFills | tools/libexword/src/obex.c:286-321 | turns of the loop, one after the other, are the packet specification |
| ObexBuffers.FillMessage | tools/libexword/src/obex.c:284-321 | the loop on the list: the message gets the headers that the packet specification takes, and the list keeps the rest, well linked, no two headers sharing a buffer |
| ObexBuffers.BuildPacket | tools/libexword/src/obex.c:268-338 | the message buffer holds, byte for byte, the packet that Obex.Object.Send returns |
| ObexBuffers.Enqueue | tools/libexword/src/obex.c:782-785 | the header is the last of the queue |
| ObexBuffers.GetNextHeader | tools/libexword/src/obex.c:794-831 | the value read from the first header's buffer is the one it was received with, and its node ends the other list |
| Crc.BitStepInvertible | loader/src/main.c:79-89 | the bit step of the CRC-32 (RFC 1952, section 8) has an inverse |
| Crc.StepsInjective | loader/src/main.c:79-89 | two different register states never meet |
| Crc.UpdateAppend | loader/src/main.c:79-89 | updating over two pieces is updating over their concatenation |
| Crc.CheckValue | loader/src/main.c:79-89 | the register after one byte of zero (RFC 1952, section 8): the polynomial, by number |
| Crc.UpdateInjective | loader/src/main.c:79-89 | different states stay different over the same data |
| Crc.UpdateIsSteps | loader/src/main.c:79-89 | up to four bytes act as if they had entered the register at once |
| Crc.BurstIsDetected | loader/src/main.c:79-89 | data that differ only inside a window of up to four bytes never have the same checksum |
| Crc.Feed | loader/src/main.c:79-89 | the two loops compute the update over the bytes of the buffer |
| Loader.HeaderRoundTrip | payload/pack_payload.py:43-55 | the loader reads the header that the packer wrote |
| Loader.PackedLoadsIff | loader/src/main.c:202-254 | a packed file loads exactly if the payload has between 1 byte and the window size, the header arrives in one read and no later read fails |
| Loader.PackThenLoad | payload/pack_payload.py:24-55 | whatever the packer accepts within the window loads under every schedule of positive reads, the padding only extending the input |
| Loader.PackRefusesIff | payload/pack_payload.py:25-42 | exactly which options the packer refuses: given in part, an input that reaches into the blob, a blob beyond its capacity; and what the size field cannot hold |
| Loader.PackedFile | payload/pack_payload.py:24-55 | the packed file byte by byte: header, input, zeros up to the offset, the blob at its offset, and nothing behind it |
| Loader.LoadsIff | loader/src/main.c:202-254 | exactly which files load under which reads, told from their bytes |
| Loader.RefusedFor | loader/src/main.c:202-254 | which of the six refusals a file gets, exactly |
| Loader.FullReads | loader/src/main.c:238-249 | reads that offer 64 KiB deliver exactly what so many full chunks hold |
| Loader.DamageIsRejected | loader/src/main.c:238-253 | damage inside a window of up to four payload bytes is never accepted |
| Loader.PositiveDelivers | loader/src/main.c:236-249 | any schedule of positive short reads delivers the payload |
| Loader.Machine.constructor | loader/src/main.c:202-206 | a machine with the whole window |
| Loader.Machine.Load | loader/src/main.c:202-254 | the verdict for every file and schedule; after success the memory at the load address is the payload; nothing outside the payload's place is ever written |
| Loader.Machine.ReadPayload | loader/src/main.c:236-249 | the read loop delivers exactly if no call fails; then window and checksum are those of the payload |
| Loader.Machine.ReadChunk | loader/src/main.c:238-248 | one read extends the loaded prefix and the checksum together |
| LoaderKeys.GreetsIffCalm | loader/src/main.c:271-281 | the first loop goes on exactly while no key is pressed after all controls were seen up |
| LoaderKeys.EverySecondPress | loader/src/main.c:271-304 | after a good load the payload is executed once for every second press of Enter, after a bad one never, and Power or Back ends it |
| LoaderKeys.NoLoadNoExecution | loader/src/main.c:262-305 | without an Enter press after the controls were released nothing is read or executed |
| LoaderKeys.KeyLoops | loader/src/main.c:262-305 | the two loops compute the loads, executions and exit of the run |
| SoftFloat.ProductFits | tools/libexword/src/crypt.c:328-342 | no 32-bit sum of the significand product overflows, and the result has 29 or 30 bits |
| SoftFloat.ProductIsClose | tools/libexword/src/crypt.c:334-341 | dropping the low halves costs less than two units of the product |
| SoftFloat.ShiftNormalises | tools/libexword/src/crypt.c:342-352 | five or six shifts normalise it |
| SoftFloat.ProductErrorBound | tools/libexword/src/crypt.c:299-364 | any two ordinary words: the product has the right sign and is never above the exact one in magnitude and short of it by less than 33/32 of its last place; or it is a zero, and the exact one is below the smallest ordinary word but for rounding; or it is saturated, and the exact one is 2^128 or more |
| SoftFloat.ProductElsewhere | tools/libexword/src/crypt.c:309-330 | products with zeros, infinities and not-a-numbers |
| SoftFloat.ProductSignIff | tools/libexword/src/crypt.c:312-327 | the sign is right for all words but one family: a negative infinity or not-a-number times a negative number stays negative |
| SoftFloat.NegativeInfinityStays | tools/libexword/src/crypt.c:309-326 | a negative infinity times minus one is itself |
| SoftFloat.Multiply | tools/libexword/src/crypt.c:299-364 | the 16- and 32-bit steps, with a wrapping exponent, compute the product on all words |
| SoftFloat.MultiplyMants | tools/libexword/src/crypt.c:328-342 | the four partial products and the shift give the product bits |
| SoftFloat.ShiftProduct | tools/libexword/src/crypt.c:342-352 | the normalisation loop and its exponent |
| SoftFloat.FromIntErrorBound | tools/libexword/src/crypt.c:366-387 | within range the converted word is x / 2^k cut to 24 bits: never above, short by less than one unit, exact below 2^24 |
| SoftFloat.FromIntRange | tools/libexword/src/crypt.c:366-387 | for every nonzero word and scale up to 0x7f00 the result is such a word, or a zero, and then x / 2^k is below the smallest ordinary word |
| SoftFloat.ConvertInt | tools/libexword/src/crypt.c:366-387 | the two shifting loops and the 16-bit exponent compute the conversion for all words |
| SoftFloat.IndexFits | tools/libexword/src/crypt.c:410-434 | no argument that reaches the table overflows its shift or indexes beyond 255 |
| SoftFloat.PowerConverts | tools/libexword/src/crypt.c:366-387 | a power of two converts to an empty fraction |
| SoftFloat.ProductWithPower | tools/libexword/src/crypt.c:299-364 | multiplying by a power of two changes the exponent only |
| SoftFloat.SineIsTableEntry | tools/libexword/src/crypt.c:432-454 | scaling up and back cancels exactly: the sine is the table entry with the sign of the reduced argument |
| SoftFloat.SineIsOddIff | tools/libexword/src/crypt.c:389-454 | the sine of the negated argument is the negated sine exactly where it is not given up as too large |
| SoftFloat.LargeSineLosesSign | tools/libexword/src/crypt.c:400-403 | the sines of 512 and of minus 512 are the same zero |
| SoftFloat.ComputeSine | tools/libexword/src/crypt.c:389-454 | the steps of the function compute the closed form for every word |
| SoftFloat.Reduce | tools/libexword/src/crypt.c:412-431 | sign, index and scale of the reduced argument |
| SoftFloatSine.ReductionIsExact | tools/libexword/src/crypt.c:417-427 | the reduction removes whole half turns, flips the sign exactly for an odd number of them, and folds the rest over a quarter turn |
| SoftFloatSine.SineTurns | tools/libexword/src/crypt.c:414-454 | from one on, the sine has the sign of the argument, reversed once for each half turn, and the magnitude of the table entry for the rest, folded at a quarter turn |
| SoftFloatSine.SineKeepsSign | tools/libexword/src/crypt.c:414-454 | below one it has the sign of the argument |
| SoftFloatSine.SineElsewhere | tools/libexword/src/crypt.c:396-413 | which arguments are looked up, by number, and what the others give |
| SoftFloatSine.SomeSines | tools/libexword/src/crypt.c:389-454 | the sines of two, four and minus four |
| SoftFloatSine.IndexCountsSteps | tools/libexword/src/crypt.c:412-416 | for arguments below two the index is the argument in steps of 1/128, rounded down |
| SoftFloatSum.RawSumFits | tools/libexword/src/crypt.c:475-506 | the aligned sum or difference never wraps, whatever the signs |
| SoftFloatSum.LargerIsLarger | tools/libexword/src/crypt.c:475-493 | the operand taken for the larger one has the larger magnitude |
| SoftFloatSum.SameSignBound | tools/libexword/src/crypt.c:456-530 | two ordinary words of one sign: unless the exponent overflows, never above the exact sum in magnitude, short of it by less than one unit of its last place |
| SoftFloatSum.OppositeSignBound | tools/libexword/src/crypt.c:456-530 | two ordinary words of different signs: the sign of the larger, never below the exact difference, above it by less than the larger operand's last place, and exact for equal exponents; a vanished result was below the smallest ordinary word |
| SoftFloatSum.SumOverflowsIff | tools/libexword/src/crypt.c:507-517 | for any two ordinary words the exponent overflows exactly if the largest one carries, and the result then keeps its fraction: the test against 0x7ff never fires |
| SoftFloatSum.LargestDoubled | tools/libexword/src/crypt.c:456-530 | the largest power of two doubled is an infinity, and the largest word doubled is not a number |
| SoftFloatSum.SumCommutesIff | tools/libexword/src/crypt.c:456-530 | the operands may be exchanged exactly if they are equal, or neither both zeros nor both not finite with one fraction |
| SoftFloatSum.DifferenceOfEqual | tools/libexword/src/crypt.c:532-536 | an ordinary word less itself is zero |
| SoftFloatSum.SumElsewhere | tools/libexword/src/crypt.c:469-500 | sums with zeros, infinities, not-a-numbers, and words 2^24 apart |
| SoftFloatSum.DifferenceNegates | tools/libexword/src/crypt.c:532-536 | a difference is the sum with the second operand negated |
| SoftFloatSum.Add | tools/libexword/src/crypt.c:456-530 | the steps of the function, negation by complement included, compute the sum for every pair of words |
| SoftFloatSum.Normalise | tools/libexword/src/crypt.c:507-529 | the shifting loops and the word they end in |
| Cipher.CryptedTwice | tools/libexword/src/crypt.c:665-688 | encrypting twice with one key gives the data back |
| Cipher.XorTells | tools/libexword/src/crypt.c:674-686 | two bytes xor to zero exactly if they are equal |
| Cipher.CryptedAt | tools/libexword/src/crypt.c:665-688 | zeros show the key, a byte stays exactly where the key is zero, and bytes behind the size stay |
| Cipher.CryptedInPieces | tools/libexword/src/crypt.c:665-688 | data may be taken in pieces of whole blocks |
| Cipher.CryptBlocks | tools/libexword/src/crypt.c:673-682 | the block loop xors the whole blocks |
| Cipher.CryptData | tools/libexword/src/crypt.c:665-688 | the block loop and the byte loop xor each of the first size bytes with its byte of the key, in place, and no other |
| Cipher.ReadPlaces | tools/libexword/src/crypt.c:598-625 | the counter that starts over at the size of the key reads the round number modulo that size |
| Cipher.StaysInScratchIff | tools/libexword/src/crypt.c:572-625 | every round reads inside the 16-byte copy exactly if the key has at most 16 bytes or there are no more than 16 rounds |
| Cipher.LongKeyLeavesScratch | tools/libexword/src/crypt.c:572-625 | sixteen zeros and a one are a key whose last round reads behind the copy |
| KeyGenerator.GetXorKey | tools/libexword/src/crypt.c:556-661 | the setup, the two loops and the counters compute the orbit of a planar map, stirred by the bytes read, for every key and whatever is read behind the scratch copy |
| KeyGenerator.KeysCoincide | tools/libexword/src/crypt.c:556-661 | the result depends on the first sixteen bytes, on the sum of the characters modulo 32 and on the size, and on the size only while it is below the number of rounds |
| KeyGenerator.ShortKeyDecides | tools/libexword/src/crypt.c:572-625 | a key that is never read behind its scratch copy alone decides the result |
| KeyGenerator.TailsMayTurn | tools/libexword/src/crypt.c:556-661 | two parts of a key behind its sixteenth byte may be exchanged: different keys with one result |
| KeyGenerator.CountRounds | tools/libexword/src/crypt.c:579-585 | the sum that wraps at 32 bits gives the number of rounds |
| KeyGenerator.ComputeCosine | tools/libexword/src/crypt.c:538-546 | one for arguments too large, else the sine of a quarter turn less the argument |
| KeyGenerator.Turn | tools/libexword/src/crypt.c:610-621 | the point is turned by the angle, scaled and shifted |
| KeyGenerator.QuarterTurn | tools/libexword/src/crypt.c:538-546 | sine and cosine of nothing and of a quarter turn |
| KeyGenerator.TurnedByNothing | tools/libexword/src/crypt.c:610-624 | a point not turned is only scaled and shifted |
| KeyGenerator.TurnedByQuarter | tools/libexword/src/crypt.c:610-624 | turned by a quarter, its coordinates change places and the new first one its sign |
| KeyGenerator.AngleIs | tools/libexword/src/crypt.c:600-602 | the first coordinate weighted, the second, and the offset |
| KeyGenerator.StirredBy | tools/libexword/src/crypt.c:605-609 | how a plain character turns the angle |
| KeyGenerator.SomeMixed | tools/libexword/src/crypt.c:605-607 | the product with a signed character, by number |
| KeyGenerator.FirstBytes | tools/libexword/src/crypt.c:564-597 | which constant each of the first six bytes moves, which way and how far |
| KeyGenerator.SomeDrawn | tools/libexword/src/crypt.c:643-650 | which bits of the point go to the result |
| KeyGenerator.KeyLength | tools/libexword/src/crypt.c:626-661 | the result has sixteen bytes |
| Framebuffer.StepKeepsInv | kernel/overlay/drivers/video/fbdev/exwordfb.c:37-153 | every atomic step of every task and the work item keeps the order of versions, the lock discipline and that nothing is stranded |
| Framebuffer.NoDrawingIsStranded | kernel/overlay/drivers/video/fbdev/exwordfb.c:67-143 | over all interleavings of draws, pans and the work item no finished drawing is stranded, and a state at rest has presented the last one |
| Framebuffer.WorkerAdvances | kernel/overlay/drivers/video/fbdev/exwordfb.c:67-85 | once all drawing processes are idle, the work item can always move and comes closer to rest |
| Framebuffer.WorkerPresents | kernel/overlay/drivers/video/fbdev/exwordfb.c:67-85 | from any reachable state with idle tasks the work item alone presents the last drawing, in a bounded number of steps |
| Framebuffer.WorkerWaitsForQuiet | kernel/overlay/drivers/video/fbdev/exwordfb.c:67-85 | the work item refreshes exactly if no drawing was counted while it yielded, up to a whole wrap of the counter |
| Keypad.StepKeeps | kernel/overlay/drivers/input/keyboard/exword-keypad.c:782-1183 | every turn of the scanner keeps the laws of buttons, keys and touch pad |
| Keypad.RunKeeps | kernel/overlay/drivers/input/keyboard/exword-keypad.c:782-1183 | after any run each button's last report is the OR of its sources and reports alternate; the keypad holds buttons in mouse mode only; the touch pad holds exactly its active button; in mouse mode the action keys are up |
| Keypad.PrimedIsFine | kernel/overlay/drivers/input/keyboard/exword-keypad.c:700-723 | priming the scanner establishes those laws |
| Keypad.HeldFollowsSample | kernel/overlay/drivers/input/keyboard/exword-keypad.c:1105-1153 | a scan records exactly which examined keys are down |
| Keypad.OrdinaryKeyFollowsEdges | kernel/overlay/drivers/input/keyboard/exword-keypad.c:1105-1153 | an ordinary key is reported on every edge and never otherwise, in mouse mode or out of it |
| KeypadKeys.ScanHoldsButtons | kernel/overlay/drivers/input/keyboard/exword-keypad.c:1105-1132 | over a scan the mode key switches mouse mode on its press; in mouse mode Enter (76), zoom (64) and back (75) hold the left, middle and right button from an edge on exactly while they are down, and out of it nothing of the keypad does |
| KeypadKeys.ScanTypesKeys | kernel/overlay/drivers/input/keyboard/exword-keypad.c:1105-1153 | the action keys are typed exactly out of mouse mode; Enter is tapped for a press, or a release whose press was not seen |
| KeypadKeys.ScanEdgeIff | kernel/overlay/drivers/input/keyboard/exword-keypad.c:1119-1129 | a direction edge is a press of a direction key in mouse mode and nothing else |
| KeypadKeys.MotionIs | kernel/overlay/drivers/input/keyboard/exword-keypad.c:834-854 | the move a scan reports, by key: 88 and 86 positive, 87 and 77 negative, four steps, at an edge and every 16384 scans |
| KeypadKeys.ScanFollowsKeys | kernel/overlay/drivers/input/keyboard/exword-keypad.c:1071-1183 | the same of whole scans from every reachable state, whatever the touch pad does |
| KeypadKeys.EnterClicks | kernel/overlay/drivers/input/keyboard/exword-keypad.c:1119-1132 | in mouse mode a press of Enter is reported as the left button down, and its release as up unless the touch pad holds it |
| KeypadKeys.ZoneIs | kernel/overlay/drivers/input/keyboard/exword-keypad.c:856-894 | the six zones in terms of raw coordinates and calibration |
| KeypadKeys.PollReports | kernel/overlay/drivers/input/keyboard/exword-keypad.c:1031-1069 | what a poll with a contact reports and keeps, by number |
| KeypadKeys.PollLoses | kernel/overlay/drivers/input/keyboard/exword-keypad.c:1019-1029 | what a poll without a contact gives up |
| KeypadKeys.PolledWhen | kernel/overlay/drivers/input/keyboard/exword-keypad.c:1174-1180 | the enabled pad is polled at every 4096th scan |
| KeypadKeys.ServiceIs | kernel/overlay/drivers/input/keyboard/exword-keypad.c:952-1011 | what a mode request changes, by number |
| Keypad.ActivatesIff | kernel/overlay/drivers/input/keyboard/exword-keypad.c:1013-1069 | a zone becomes active exactly on the second of two readings in a row that agree |
| Keypad.ReleasesIff | kernel/overlay/drivers/input/keyboard/exword-keypad.c:1013-1035 | an active zone lets go exactly on the second reading in a row without contact |
| Keypad.ServiceSticksIff | kernel/overlay/drivers/input/keyboard/exword-keypad.c:952-1011 | a mode request leaves a pressed touch button stuck exactly if the new mode wants a touch pad that a timeout has switched off |
| Keypad.StuckForever | kernel/overlay/drivers/input/keyboard/exword-keypad.c:937-1069 | a stuck button is never let go again |
| KeypadStuck.ButtonSticks | kernel/overlay/drivers/input/keyboard/exword-keypad.c:952-1069 | a run from the primed scanner, whatever keys are held, that ends with the left button stuck: touch is asked for, two contacts agree, a poll times out, another mode with touch is asked for |
| KeypadStuck.LeftZoneExists | kernel/overlay/drivers/input/keyboard/exword-keypad.c:856-894 | a sane calibration and a contact in the left button zone |
| KeypadDriver.Driver.SetPointerButton | kernel/overlay/drivers/input/keyboard/exword-keypad.c:782-802 | sources and reports after setting one source of a button, and whether the button changed |
| KeypadDriver.Driver.ToggleMouseMode | kernel/overlay/drivers/input/keyboard/exword-keypad.c:804-832 | buttons and action keys after the mode key |
| KeypadDriver.Driver.ScanKey | kernel/overlay/drivers/input/keyboard/exword-keypad.c:1105-1153 | the whole state after one key of a scan |
| KeypadDriver.Driver.ScanKeys | kernel/overlay/drivers/input/keyboard/exword-keypad.c:1105-1153 | the whole state after all keys of a scan |
| KeypadDriver.Driver.TouchReleaseActive | kernel/overlay/drivers/input/keyboard/exword-keypad.c:937-950 | the state after the touch pad lets go |
| KeypadDriver.Driver.TouchPoll | kernel/overlay/drivers/input/keyboard/exword-keypad.c:1013-1069 | the state after a poll of the touch pad, for every reading |
| KeypadDriver.Driver.ScanOnce | kernel/overlay/drivers/input/keyboard/exword-keypad.c:1105-1180 | keys, motion and touch after a whole scan |
| KeypadDriver.Driver.ServiceSubpadMode | kernel/overlay/drivers/input/keyboard/exword-keypad.c:961-1007 | buttons and touch pad after a mode request |
| Subpad.RestoreUndoes | x11/apps/subpad-mouse.c:512-541 | once only saved bits have changed, restoring brings back every bit of every register |
| Subpad.SessionIsUndone | x11/apps/subpad-mouse.c:311-541 | after a snapshot and any operations, with any waits timing out, restoring gives back the snapshot |
| Subpad.ReadAdcKeeps | x11/apps/subpad-mouse.c:377-480 | a conversion changes saved bits only; unless it reports dirty, the converter is idle and the pins rest high; a converter last seen busy is always reported dirty |
| Subpad.ReadAdcOutcome | x11/apps/subpad-mouse.c:424-480 | the outcome of a conversion for every course of its waits |
| Subpad.PinsAre | x11/apps/subpad-mouse.c:338-430 | the pins bit by bit when based, at rest, routed to the converter, and when the pen is sensed |
| Subpad.MeasuredIsClose | x11/apps/subpad-mouse.c:460-471 | the masks never bend a measurement, and a valid one lies within 32 of the raw reading |
| Subpad.Device.CapturePfc | x11/apps/subpad-mouse.c:325-336 | the snapshot is the registers |
| Subpad.Device.RestPfc | x11/apps/subpad-mouse.c:377-400 | the pins are touched only after both waits found the converter idle |
| Subpad.Device.ReadPen | x11/apps/subpad-mouse.c:402-417 | contact exactly if none of the five readings is high |
| Subpad.Device.AbortAdc | x11/apps/subpad-mouse.c:360-480 | pins, converter and outcome after a timed-out conversion |
| Subpad.Device.Convert | x11/apps/subpad-mouse.c:424-480 | pins, converter, outcome and sample of a conversion |
| Subpad.Device.RestorePfc | x11/apps/subpad-mouse.c:512-541 | the registers are the snapshot and the read-back check passes |
| SubpadTouch.PollKeeps | x11/apps/subpad-mouse.c:814-864 | every poll keeps the counters in range and the candidate consistent |
| SubpadTouch.PlaceDoes | x11/apps/subpad-mouse.c:543-681 | what touching a place twice does, and letting go, by raw coordinates |
| SubpadTouch.ZonesAre | x11/apps/subpad-mouse.c:543-556 | where the zones end and begin |
| SubpadTouch.NearIs | x11/apps/subpad-mouse.c:841-850 | which samples are near |
| SubpadTouch.TwoPollsActivate | x11/apps/subpad-mouse.c:841-863 | a zone becomes active exactly if two polls in a row touch it, close together |
| SubpadTouch.TwoPollsRelease | x11/apps/subpad-mouse.c:814-826 | an active zone lets go exactly if two polls in a row find nothing |
| SubpadTouch.RunButtons | x11/apps/subpad-mouse.c:779-865 | over every run, refused requests with or without effect included, exactly the active zone's button is down while the loop goes on, and never two |
| SubpadTouch.ShutdownReleases | x11/apps/subpad-mouse.c:779-871 | however the loop ends, the shutdown leaves no button down unless its own release is refused without effect; then what was down stays down |
| SubpadTouch.LostReleaseSticks | x11/apps/subpad-mouse.c:779-871 | a run in which that last release is lost and the left button stays down |
| SubpadTouch.HoldMoves | x11/apps/subpad-mouse.c:828-839 | a direction held for n polls moves the pointer n / 3 times |
| SubpadTouch.Pad.Turn | x11/apps/subpad-mouse.c:814-864 | state and events of one turn of the loop |
| Snake.TickKeeps | x11/apps/snake.c:126-155 | a tick keeps every law of the game, the head never turns into the neck, and a full snake never eats |
| Snake.TickMoves | x11/apps/snake.c:126-155 | a tick moves every cell into its predecessor's place, grows the snake exactly if it eats, and ends the game exactly at the edge or on itself |
| Snake.FullSnakeFillsGrid | x11/apps/snake.c:127-150 | a snake of full length covers every cell (pigeonhole) |
| Snake.FoodInGrid | x11/apps/snake.c:79-92 | food lies in the grid and not on the snake, or where it was |
| Snake.FoodStaysIff | x11/apps/snake.c:79-92 | from a place under the snake the food comes to a free cell exactly if one is drawn |
| Snake.EatenFoodStaysIff | x11/apps/snake.c:146-154 | after a meal the food stays under the head exactly if every cell drawn lies on the snake |
| Snake.FoodUnderHead | x11/apps/snake.c:79-155 | a first tick after which it does |
| Snake.PlayKeeps | x11/apps/snake.c:68-222 | after any keys, ticks and draws the cells are in the grid, distinct and linked, and the score is ten for each cell above five |
| Snake.KeySteers | x11/apps/snake.c:126-205 | after a direction key the head goes where it points on the next tick, unless that reverses the last move; and the game ends exactly if that is outside or on the snake |
| Snake.OtherKeys | x11/apps/snake.c:204-213 | pause, restart, and what they do to the clock |
| Snake.FreshIs | x11/apps/snake.c:95-108 | where a fresh snake lies and heads |
| Snake.Board.Occupies | x11/apps/snake.c:68-77 | true exactly if a cell of the snake lies there |
| Snake.Board.PlaceFoodOnBoard | x11/apps/snake.c:79-92 | the first free cell drawn, or the old place |
| Snake.Board.Reset | x11/apps/snake.c:95-108 | the fresh game |
| Snake.Board.Step | x11/apps/snake.c:126-155 | the game after a tick, shifted in place |
| Snake.Board.Direction | x11/apps/snake.c:195-202 | a turn is taken up unless it reverses the last move |
| Taps.MergedRepeats | kernel/overlay/drivers/mmc/host/renesas_sdhi_core.c:637-645 | each bit of the merge is the AND of its tap in both runs |
| Taps.ChosenTapPassedTwice | kernel/overlay/drivers/mmc/host/renesas_sdhi_core.c:671-672 | the tap chosen is a tap and passed in both runs |
| Taps.SelectionIsCircular | kernel/overlay/drivers/mmc/host/renesas_sdhi_core.c:652-674 | with a failed tap, selection succeeds exactly if three neighbouring taps round the circle passed, and no run round the circle is longer than the one centred |
| Taps.SelectableIff | kernel/overlay/drivers/mmc/host/renesas_sdhi_core.c:637-672 | selection succeeds exactly if, with a failed tap, three neighbours round the circle passed twice, or with none, a change point was seen twice |
| Taps.CentreIsMiddle | kernel/overlay/drivers/mmc/host/renesas_sdhi_core.c:671-672 | as many probes passed in front of the tap chosen as behind it, or one more |
| Taps.LongestRun | kernel/overlay/drivers/mmc/host/renesas_sdhi_core.c:664-670 | the first of the longest maximal runs |
| Taps.Tuner.Merge | kernel/overlay/drivers/mmc/host/renesas_sdhi_core.c:637-645 | both bitmaps become their merges, in place |
| Taps.Tuner.SelectTuning | kernel/overlay/drivers/mmc/host/renesas_sdhi_core.c:623-675 | success exactly if some run is long enough; then the tap is the centre of a longest run; else the tap is kept |
| SquareRoot.IntegerSqrt | x11/apps/exdesk.c:829-847 | r*r <= v < (r+1)*(r+1) on a word of any even width, no sum leaving the word, both loops ending |
| SquareRoot.RootIsUnique | x11/apps/exdesk.c:829-847 | there is only one such r |
| Printf.ShownLength | experiments/sysinfo/src/libc/sprintf.c:50-108 | as many characters as the width or the number asks for, whichever is more |
| Printf.PaddedIs | experiments/sysinfo/src/libc/sprintf.c:35-68 | the text at one end, zeros or spaces at the other |
| Printf.LettersAre | experiments/sysinfo/src/libc/sprintf.c:85-94 | digits beyond nine are capitals exactly if asked for |
| Printf.NumberFits | experiments/sysinfo/src/libc/sprintf.c:71-105 | sign, digits and terminator fit the 12-byte buffer for every word |
| Printf.DecimalRoundTrip | experiments/sysinfo/src/libc/stdlib.c:40-90 | atoi undoes %d and %u for every word, with wrapping arithmetic |
| Printf.HexRoundTrip | experiments/sysinfo/src/libc/stdlib.c:43-60 | atoi undoes %x and %X behind 0x for every word |
| Printf.NumbersRead | experiments/sysinfo/src/libc/stdlib.c:40-90 | an octal, a hexadecimal, a decimal number and one with a stray character, as read |
| Printf.ReadsInRangeIff | experiments/sysinfo/src/libc/stdlib.c:71-89 | reading back %d stays in the range of an int exactly up to 48 short of the largest, since the character is added before its zero is taken off |
| Printf.LargestIntWraps | experiments/sysinfo/src/libc/stdlib.c:71-89 | the largest int reads back, but its sum leaves the range on the way |
| Printf.PaddedReadsBackIff | experiments/sysinfo/src/libc/sprintf.c:34-108 | exactly which paddings of %d read back: zeros in front make numbers above 7 octal, zeros behind scale them, spaces in front hide them |
| Printf.PaddedEightReadsAsZero | experiments/sysinfo/src/libc/sprintf.c:34-108 | eight padded with a zero reads back as zero |
| Printf.Output.PrintS | experiments/sysinfo/src/libc/sprintf.c:35-68 | text and count of a padded string |
| Printf.Output.PrintI | experiments/sysinfo/src/libc/sprintf.c:74-108 | text and count of a number |
| Printf.Output.FillDigits | experiments/sysinfo/src/libc/sprintf.c:85-94 | the digits are written backwards without leaving the buffer |
| Printf.Parse | experiments/sysinfo/src/libc/stdlib.c:40-90 | the loops of atoi compute its value |
| Calendar.NextIsOneMore | experiments/sysinfo/src/libc/time.c:43-59 | the day after any Gregorian date has the next day number |
| Calendar.NthDayNumber | experiments/sysinfo/src/libc/time.c:43-59 | the n-th day after 1970-01-01 has number n |
| Calendar.DateIsNthDay | experiments/sysinfo/src/libc/time.c:43-59 | every date from 1970 on is reached by counting as many days as its number |
| Calendar.DayIsFixed | experiments/sysinfo/src/libc/time.c:43-59 | one civil day is 86400 seconds on every date (POSIX.1-2017, XBD section 4.16) |
| Calendar.SecondsRoundTrip | experiments/sysinfo/src/libc/time.c:43-59 | every 32-bit second is the result for some date and time of day |
| Calendar.SecondsInjective | experiments/sysinfo/src/libc/time.c:43-59 | dates and times within the word are told apart by their seconds |
| Calendar.CodedDate | experiments/sysinfo/src/libc/time.c:43-59 | for a calendar date no step of the coded day count wraps |
| Calendar.MkTime | experiments/sysinfo/src/libc/time.c:43-59 | the wrapping steps for any words; for a date the exact seconds modulo 2^32 |
| Lists.ListAddBetween | tools/libexword/src/list.h:39-47 | the ring with the node in its place, linked both ways |
| Lists.ListAdd | tools/libexword/src/list.h:57-60 | the entries with the node in front |
| Lists.ListAddTail | tools/libexword/src/list.h:70-73 | the entries with the node at the end |
| Lists.ListDel | tools/libexword/src/list.h:93-98 | the entries without the node, whose links are null |
| Lists.ListDelInit | tools/libexword/src/list.h:104-108 | the entries without the node, which is a ring of its own |
| Lists.ListMove | tools/libexword/src/list.h:115-119 | within one list: the entry comes to the front, the others keep their order |
| Lists.ListMoveTo | tools/libexword/src/list.h:115-119 | the entry leaves one list and begins the other |
| Lists.ListMoveTail | tools/libexword/src/list.h:126-131 | within one list: the entry comes to the end, the others keep their order |
| Lists.ListMoveTailTo | tools/libexword/src/list.h:126-131 | the entry leaves one list and ends the other |
| Lists.ListEmpty | tools/libexword/src/list.h:137-140 | true exactly if there are no entries |
| Lists.ListSplice | tools/libexword/src/list.h:142-165 | the entries of one list in front of those of the other |
| Lists.ListSpliceInit | tools/libexword/src/list.h:174-181 | and the spliced list is an empty list |
| Lists.ForEach | tools/libexword/src/list.h:198-200 | a traversal meets the entries once each, in order |
| Lists.ListIsUnique | tools/libexword/src/list.h:20-22 | the pointers determine the order: one head has one sequence of entries |
| Paths.NormalIsClean | tools/libexword/src/main.c:198-209 | the result has no slash and no two separators side by side |
| Paths.NormalOnce | tools/libexword/src/main.c:198-209 | cleaning up again changes nothing, and exactly the clean paths stay as they are |
| Paths.NormalKeepsNames | tools/libexword/src/main.c:198-209 | the same names in the same order, beginning and ending with separators as before |
| Paths.DropAt | tools/libexword/src/main.c:201-206 | one character is removed and the rest moves down |
| Paths.CleanPath | tools/libexword/src/main.c:197-210 | the three nested loops leave the normal form in the array |
| UserKeys.LengthSurvivesIff | tools/libexword/src/content.c:236-240 | a record is stepped over rightly exactly if its name and terminator are shorter than 128 |
| UserKeys.LongNameTurnsBack | tools/libexword/src/content.c:236-240 | the length of a name of 127 characters reads as -128 |
| UserKeys.MatchIsName | tools/libexword/src/content.c:231-231 | a name compares equal with a stored record exactly if it is the record's name |
| UserKeys.FirstWriteWins | tools/libexword/src/content.c:214-247 | after any saves each name has the key first saved for it |
| UserKeys.LoadUserKey | tools/libexword/src/content.c:249-274 | the walk over the records finds exactly what the map says |
| UserKeys.StepsOverIff | tools/libexword/src/content.c:230-237 | in a row of records with names of any length, the walk steps from a record to the next exactly if its name has fewer than 127 characters |
| UserKeys.WalkableIff | tools/libexword/src/content.c:230-237 | the walk comes to every record and to the end of the file exactly if all names have fewer than 127 characters |
| UserKeys.WalkSticksIff | tools/libexword/src/content.c:230-237 | a walk that comes to a record stays there for good exactly if the length of its name is 234 modulo 256 |
| UserKeys.LongNameSticks | tools/libexword/src/content.c:230-237 | a name of 234 characters is one at which looking for another name never ends |
| UserKeys.SaveUserKey | tools/libexword/src/content.c:214-247 | the file is that of the map with the key added, or as it was if the name is known; afterwards the walk still comes to every record exactly if the name was known or has fewer than 127 characters |
| StartGate.StepKeepsInv | x11/apps/x11-start-gate.c:31-158 | while the parent is stopped some process is bound to let it go, unless the waiter or the gate was killed; any of the processes may be killed at any time |
| StartGate.QuietStrandsIff | x11/apps/x11-start-gate.c:98-158 | where nothing moves any more the parent is still stopped exactly if the waiter has not finished and either the server was started, or the gate was killed before that and the second fork did not fail; the waiter then was killed, or waits for a server that is up and silent, or was never born |
| StartGate.WaiterListens | x11/apps/x11-start-gate.c:31-56 | the waiter lets the parent go only after a line, the end of the pipe or an error, and misses no line |
| StartGate.RunsEnd | x11/apps/x11-start-gate.c:31-158 | a run is no longer than 40 steps and two for each write of the server |
| StartGate.KilledWaiterStrands | x11/apps/x11-start-gate.c:110-158 | a run that ends with the waiter killed and the parent stopped |
| StartGate.KilledGateStrands | x11/apps/x11-start-gate.c:103-110 | a run in which the gate is killed right after the stop, no server is started and the parent stays stopped |

## Left out

- KeyGenerator.GetXorKey: what a round reads behind the scratch copy is any byte, and may change from round to round.
- `print`, the format scanner of sprintf.c: padding flags, width and conversion reach `Printf` already scanned; output goes to a string, not to a null pointer.
- SoftFloatSine.IndexCountsSteps: that table entries are sines is not stated; Dafny has no sine to compare with.
- Heap.Manager.Alloc: the state after an `Overrun` is not modelled, and the pool is an array of quanta, so a misaligned address cannot be written down.
- Heap.Manager.Free: only null and addresses behind live headers are accepted, as the code assumes.
- DataBuffer.Buffer.constructor: allocation failure of the host is not modelled, here or anywhere else.
- Obex.Object.AddHeader: modelled on sequences of bytes, as is receiving; `ObexBuffers` refines sending and getnextheader to lists and buffers, which must not be shared.
- ObexBuffers.FillMessage: a map tells which header a node belongs to, where the program subtracts an offset; freed headers are simply no longer in the list.
- Obex.Object.Receive: begins behind the response header; the length check of that header, the CONNECT and DISCONNECT answers, which set the MTU, non-header data, timeouts and short reads of USB are left out.
- Obex.Object.Request: the queue is one that addheader can build with at most one body and an MTU of at least 8; what a second body does is not modelled.
- Framebuffer.StepKeepsInv: DMA registers and the timeout of one transfer are one step; the content of video memory is a version number.
- Keypad.RunKeeps: decoding the key-state words, the rows of the secondary display, the converter sequence and the pen probe are left out; a reading is any contact with coordinates, or none.
- KeypadDriver.Driver.ScanOnce: a sample is the set of keys down; the clock gate, the raw words and the activity flag are left out.
- KeypadDriver.Driver.ServiceSubpadMode: the rows of the secondary display and the pen probe are left out.
- Keypad.OrdinaryKeyFollowsEdges: speaks of keys that are neither mouse actions nor the mode key; one Enter tap for each press does not hold across a mode change and is not claimed.
- Subpad.SessionIsUndone: registers are plain storage, barriers and delays do nothing, and the clock gate is left out.
- The clock chip and its BCD fields, of which `rtc_gettime` joins century and year with an or.
- UserKeys.LoadUserKey: walks files that are rows of complete records with names that fit; what the walk meets in any other file depends on memory behind it, and it need not end (`UserKeys.WalkSticksIff`). Reading and writing the file itself is left out.
- Lists.ListSplice: the structures that the nodes are embedded in, and backward traversal, which is the same walk.
- StartGate.QuietStrandsIff: the checks before the stop are one step that may refuse.
- LoaderKeys.KeyLoops: the payload is taken to return, and drawing is left out.
- Taps.Tuner.SelectTuning: the registers written around the selection.
- Hex keys of the command line, the wrappers of exword.c, menus, screens, the remaining drivers and the build scripts: input and output, tables, or easy members.
