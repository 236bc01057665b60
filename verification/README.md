# Proofs about the lap timer's libraries

This project models, in Dafny, the parts of the Arduino libraries bundled with the lap timer in
which state, wrap-around or arithmetic make a mistake easy, and proves what each part is for.
`dafny verify dfyconfig.toml` checks all of it.

| files | models | main results |
|---|---|---|
| AesBits, AesField, Fips197, Aes | the in-place AES-128 of the CC3000 driver | it computes Cipher and InvCipher of FIPS 197, which undo each other for every key and block |
| XBee, XBeeReceiver, XBeeSchedules | escaped API frames, written by `send` and parsed by the resumable `readPacket` | what goes out is the request in the wire format; every request of at most 105 data bytes is delivered once and in order, however the stream is cut; the outcome of every other one, and what it costs those after it |
| SoftwareSerial | the receive ring shared with an interrupt | over every interleaving of single loads and stores, the bytes read are the bytes accepted |
| W5100, EthernetUdp | 2 KB rings under free-running 16-bit pointers, sockets on top, datagrams parsed out of the queue | the rings are queues, the datagram framing never slips, and reads get the payload without a gap |
| Sd2Card, SdCardHistory | partial reads of an open block | over every history, exactly when a successful read gives what was last written to the block, and when a command is sent inside a block |
| SpeedFeed, LapTimer | gates across the track and crossing detection, over exact reals | when the one-sided tests are right, where a gate lies, and that the adjusted time is the interpolated one |
| WaypointStorage | the overlapping EEPROM format | the round trip is exact if and only if there are at most 255 gates |
| DhcpReply, Dhcp, DhcpClock | the lease client, its option parser and its clock | replies are read as what they mean; an offer and its acknowledgement give a lease; the clock never drifts, and for steady cycles the first request is early by less than a cycle and never late |
| Servo, ServoFrames, ServoObject | the interrupt-driven pulse scheduler, and the pulses and angles written to it | exact pulses and frames, over any number of them; every angle is read back as written |
| Nmea | the sentence decoder, with its fixed buffers | from any state, exactly the acceptable sentences are published |
| Dns | the request writer and the response parser | names and records are consumed exactly, and the first address answer decides |

Objects that the source updates in place are classes here. Their methods are proved against
functions on values, and the results over whole runs are lemmas about those functions. A ghost
parameter of a method names what the caller has arranged (the key behind a schedule, the records
behind a packet) and has no part in what the method does.

## What the code does differently from what one might expect

- XBee: `send` accepts up to 255 data bytes, but a frame with more than 105 is never received as it
  was sent (`DeliveredIffAtMost105`). The high byte of the length is lost (`PacketLengthIsLsb`). Such
  a frame, or one broken off by a start byte, can leave its running checksum behind, which costs the
  next request and no other (`DeliveredIff`, `LeftoverCostsOneFrame`, `AfterUnexpectedStart`). On
  streams that `send` does not write, a cut after an escape byte can change the result
  (`CutAfterEscape`).
- SoftwareSerial: `peek` returns a signed char, so a byte of 255 looks like no byte at all.
- SD: the range guard of `readData` is a 16-bit sum on the AVR and lets ranges through whose end
  wraps (`GuardPasses`). Three things spoil an open block for the partial reads that follow, which
  succeed with 0xFF bytes: a refused range and a write to block 0, which deselect the card
  (`RefusedRangeSpoils`, `WriteToZeroSpoils`), and a wrapping range, which reads the block out but
  leaves it marked as open (`WrappingRangeSpoils`). The first two also leave the card inside the block
  when the next command comes. Nothing else does either (`ReadAgreesIff`, `CommandStraysIff`). Cards
  addressed by byte reach another block from 2^23 on (`AddressedIsBlock`).
- Crossing: when the two fixes lie due north of each other, a gate ahead of them is reported as
  crossed (`DetectsAheadDueNorth`, `SegmentsMeetIff`).
- Waypoints: 256 gates or more do not come back, and loading into a vector that is not empty
  overwrites it (`RoundTripIffAtMost255`, `LoadOverwritesVector`).
- DHCP: the comment gives the rebinding time as seven eighths of the lease; the code makes it the
  whole lease. For leases of 2^31 seconds or more, infinite ones among them, the counter is negative
  and every check asks for a new lease (`DefaultTimes`, `AsksAtOnce`). The code comment of
  `checkLease` promises nothing about failed attempts: one that ends in another state than LEASED or
  START, such as a renewal without a free socket, is never followed by another (`StuckForever`,
  `NoSocketStops`, `AsksAgainIff`). A check at a clock value of zero restarts the clock
  (`ZeroClockRestarts`). The end option does not end the options (`EndIsPassed`, `NakAfterEnd`), a
  message cut within its type is a time-out (`CutReadsAsTimeout`), one cut before the bytes of a time
  turns those of the old one around (`CutTimeTurnsRound`), and some lengths are not looked at
  (`LengthIgnored`).
- Servo: with limits above the defaults, twelve servos can take more than 65531 ticks; such a frame
  lasts longer than it should (`FrameLengthIff`, `FrameTooLong`).
- DNS: empty labels are skipped. The length of a label above 255 bytes is cut to a byte, so the name
  that arrives is another one (`NameIsSentIff`), sometimes without any sign of it
  (`LongLabelReadsAsOthers`). The result codes are the signed values that a 16-bit `int` makes of the
  `uint16_t` returned.
- NMEA: one wrong character between '$' and '*' makes a sentence unacceptable, but one that has become
  '*' or '$' can leave another, acceptable sentence in it (`OneCharacterChanged`, `StarTakesOver`,
  `DollarTakesOver`). A sentence of exactly 100 characters whose terms fit has no room for its
  terminator (`SentenceRoomyIff`). `Decode` asks its caller to keep its last character away; every
  other sentence is covered.

## Model

| member | source | states |
|---|---|---|
| AesBits.TablesInverse | libraries/bfinlibmaster/security.c:47-82 | on all 256 values each substitution table undoes the other |
| AesBits.SBoxIsAffineOfInverse | libraries/bfinlibmaster/security.c:47-64 | every entry of the table is the affine image of the multiplicative inverse, as section 5.1.1 of FIPS 197 defines it (0 counts as its own inverse) |
| AesBits.RconIsPowerOfX | libraries/bfinlibmaster/security.c:84-85 | the round constants are the powers of x of section 5.2 |
| AesBits.GaloisMul2Linear | libraries/bfinlibmaster/security.c:146-154 | doubling in the field distributes over exclusive or |
| AesField.Times2 | libraries/bfinlibmaster/security.c:146-154 | the doubling is the field product by x modulo the polynomial of section 4.2 |
| AesField.FoldedMixIsMixColumn | libraries/bfinlibmaster/security.c:213-241 | the form with one doubling a byte is the matrix product of section 5.1.3, for every column |
| AesField.BarretoThenFoldedIsInvMixColumn | libraries/bfinlibmaster/security.c:361-406 | the preliminary step followed by the folded form is the matrix product of section 5.3.3, for every column |
| AesField.FoldedMixTwice | libraries/bfinlibmaster/security.c:213-241 | folding a column twice is the preliminary step |
| AesField.BarretoTwice | libraries/bfinlibmaster/security.c:361-377 | the preliminary step undoes itself |
| AesField.MixColumnInverse | libraries/bfinlibmaster/security.c:213-406 | the two column products undo each other |
| Fips197.ShiftRowsAt | libraries/bfinlibmaster/security.c:187-211 | formula (5.3) of FIPS 197, and its inverse: byte r of column c comes from column c + r modulo 4 |
| Fips197.KeyExpansionExample | libraries/bfinlibmaster/security.c:104-131 | the first round key of the example in Appendix A.1 of FIPS 197 |
| Fips197.InvRoundsOfCipher | libraries/bfinlibmaster/security.c:311-436 | decryption of a cipher text passes, backwards, through the states of the encryption, round by round |
| Fips197.RoundsOfInvCipher | libraries/bfinlibmaster/security.c:181-285 | encryption of a decrypted block passes through the states of the decryption |
| Fips197.CiphersInverse | libraries/bfinlibmaster/security.c:181-436 | for every key and block, Cipher and InvCipher undo each other |
| Aes.ExpandFirstWord | libraries/bfinlibmaster/security.c:111-115 | in place, the word at a multiple of Nk: rotated, substituted, with its round constant; no other byte changes |
| Aes.ExpandRound | libraries/bfinlibmaster/security.c:110-128 | one turn of the loop appends the next round key and keeps the earlier ones |
| Aes.ExpandKey | libraries/bfinlibmaster/security.c:104-131 | the expanded key holds exactly the eleven round keys of KeyExpansion (section 5.2) |
| Aes.SubRow0 | libraries/bfinlibmaster/security.c:188-192 | row 0: key addition, substitution and rotation by 0, through the temporaries; other rows untouched |
| Aes.SubRow1 | libraries/bfinlibmaster/security.c:193-198 | row 1: key addition, substitution and rotation by 1, through the temporaries; other rows untouched |
| Aes.SubRow2 | libraries/bfinlibmaster/security.c:199-205 | row 2: key addition, substitution and rotation by 2, through the temporaries; other rows untouched |
| Aes.SubRow3 | libraries/bfinlibmaster/security.c:206-211 | row 3: key addition, substitution and rotation by 3, through the temporaries; other rows untouched |
| Aes.AddSubShift | libraries/bfinlibmaster/security.c:187-211 | the four rows together are ShiftRows of SubBytes of AddRoundKey |
| Aes.InvSubRow0 | libraries/bfinlibmaster/security.c:409-413 | row 0: rotation back by 0, inverse substitution, key addition; other rows untouched |
| Aes.InvSubRow1 | libraries/bfinlibmaster/security.c:414-419 | row 1: rotation back by 1, inverse substitution, key addition; other rows untouched |
| Aes.InvSubRow2 | libraries/bfinlibmaster/security.c:420-426 | row 2: rotation back by 2, inverse substitution, key addition; other rows untouched |
| Aes.InvSubRow3 | libraries/bfinlibmaster/security.c:427-432 | row 3: rotation back by 3, inverse substitution, key addition; other rows untouched |
| Aes.InvShiftSubAdd | libraries/bfinlibmaster/security.c:408-432 | the four rows together are AddRoundKey of InvSubBytes of InvShiftRows |
| Aes.MixColumnAt | libraries/bfinlibmaster/security.c:214-220 | one column, in place and through its temporaries, becomes its folded mix; the rest of the state is untouched |
| Aes.BarretoAt | libraries/bfinlibmaster/security.c:362-365 | one column becomes its preliminary step; the rest is untouched |
| Aes.MixColumnsInPlace | libraries/bfinlibmaster/security.c:213-241 | the state becomes MixColumns of itself |
| Aes.AddLastRoundKey | libraries/bfinlibmaster/security.c:268-284 | the state is added to the last round key |
| Aes.AesEncr | libraries/bfinlibmaster/security.c:181-285 | ten rounds in place compute Cipher (section 5.1) |
| Aes.AesDecr | libraries/bfinlibmaster/security.c:311-436 | ten rounds in place compute InvCipher (section 5.3) |
| Aes.Ecb.AesEncrypt | libraries/bfinlibmaster/security.c:454-459 | the block becomes its Cipher under the key, and InvCipher recovers it |
| Aes.Ecb.AesDecrypt | libraries/bfinlibmaster/security.c:478-483 | the block becomes its InvCipher under the key, and Cipher recovers it |
| XBeeSender.SerialOut.SendByte | libraries/XBee/XBee.cpp:1457-1466 | a byte goes out as itself or as an escape byte and its flipped form |
| XBeeSender.SerialOut.SendData | libraries/XBee/XBee.cpp:1431-1443 | the loop writes the escaped data, and its checksum is the sum of api id, frame id and data modulo 256 |
| XBeeSender.SerialOut.Send | libraries/XBee/XBee.cpp:1415-1455 | a start byte, then the escaped length, ids, data and checksum; a reader who knows the wire format only finds one frame in it, with a right length and checksum, that carries api id, frame id and data |
| XBeeSender.FrameCarries | libraries/XBee/XBee.cpp:1415-1466 | for every request: behind the start byte, unescaped, stand a two-byte length, so many bytes, which are the api id, the frame id and the data, and a byte that makes them add up to 0xff |
| XBeeWireFormat.CarriesOnce | libraries/XBee/XBee.cpp:1457-1466 | such a reader has no choice: no bytes on the wire carry two different contents |
| XBeeReceiver.XBee.constructor | libraries/XBee/XBee.cpp:760-771 | a receiver starts clean |
| XBeeReceiver.XBee.ResetResponse | libraries/XBee/XBee.cpp:739-758 | clears everything but the running checksum |
| XBeeReceiver.ResetClears | libraries/XBee/XBee.cpp:739-758 | every field of the response, and every byte of its frame, is zero again; the running checksum is kept |
| XBeeReceiver.XBee.Switch | libraries/XBee/XBee.cpp:886-956 | one unescaped byte, by position |
| XBeeReceiver.XBee.ReadPacket | libraries/XBee/XBee.cpp:853-958 | a call, on whatever bytes have arrived, is one poll of the specification |
| XBeeDelivery.PacketLengthIsLsb | libraries/XBee/XBee.cpp:721-723 | the length read back is the low byte alone |
| XBeeDelivery.PollAdvances | libraries/XBee/XBee.cpp:853-958 | a call leaves a receiver on course: it has the next frame, or waits for the rest of it |
| XBeeDelivery.RunFollows | libraries/XBee/XBee.cpp:853-958 | over every schedule of arrivals and calls the outcomes are those of the frames, in order, and the receiver stays on course |
| XBeeDelivery.EveryFrameOnce | libraries/XBee/XBee.cpp:853-958 | when everything has been read, every frame, good or bad, has led to its outcome exactly once, in order, and the receiver is clean |
| XBeeDelivery.BodyIsExpected | libraries/XBee/XBee.cpp:1415-1455 | what send writes for at most 105 data bytes is a frame that should be delivered as api id, and frame id followed by data |
| XBeeDelivery.RequestsAreDelivered | libraries/XBee/XBee.cpp:853-958 | for all requests of at most 105 data bytes and every cutting of the stream, exactly these requests are delivered, in order |
| XBeeDelivery.OneByteCorrupted | libraries/XBee/XBee.cpp:926-939 | any other value of any one byte from api id to checksum is a checksum failure |
| XBeeDelivery.CallsDrain | libraries/XBee/XBee.cpp:853-958 | as many calls as bytes are waiting empty the serial buffer |
| XBeeDelivery.FrameWritesBelow107 | libraries/XBee/XBee.cpp:915-955 | whatever the bytes, the frame array is written below index 107 only |
| XBeeSchedules.CutAfterEscape | libraries/XBee/XBee.cpp:864-884 | a cut after an escape byte makes no difference if and only if the next byte is neither a start byte nor an escape byte |
| XBeeSchedules.PollSplit | libraries/XBee/XBee.cpp:853-958 | where no escape byte is followed by one of these, polling a prefix of the stream and later the rest comes to the same as polling it whole, from any state |
| XBeeSchedules.ScheduleMakesNoDifference | libraries/XBee/XBee.cpp:853-958 | on every such stream and from any state, the outcomes of a run are the first of those that the stream has when it is there from the start; once all has been read they are all of them, and the receiver is the same |
| XBeeSchedules.EveryRequestOnce | libraries/XBee/XBee.cpp:853-958 | for all requests that send accepts, of every size, every checksum left over from before and every schedule: one outcome for each request, in order, and what is left over at the end |
| XBeeSchedules.DeliveredIff | libraries/XBee/XBee.cpp:915-955 | on every schedule a request of such a stream is delivered if and only if it has at most 105 data bytes and those before it leave no checksum over |
| XBeeSchedules.DeliveredIffAtMost105 | libraries/XBee/XBee.cpp:915-955 | on every schedule, a frame of send to a clean receiver has one outcome, which is its delivery if and only if it has at most 105 data bytes |
| XBeeSchedules.LeftoverCostsOneFrame | libraries/XBee/XBee.cpp:754-758 | on every schedule, a checksum left over makes the next request of at most 105 data bytes a checksum failure, and all later ones are delivered |
| XBeeSchedules.AfterUnexpectedStart | libraries/XBee/XBee.cpp:854-868 | on every schedule, a start byte inside a frame is one error that loses both frames, and the requests after it meet the checksum that was under way |
| SerialRing.RecvAppends | libraries/SoftwareSerial/SoftwareSerial.cpp:246-259 | the interrupt appends its byte to the unread ones, or, if 63 are unread, drops it and sets the flag |
| SerialRing.PopRemoves | libraries/SoftwareSerial/SoftwareSerial.cpp:432-434 | moving the head takes off the oldest unread byte |
| SerialInterleaving.TakeKeepsInv | libraries/SoftwareSerial/SoftwareSerial.cpp:246-444 | each interrupt and each single load or store of the reader keeps: accepted is delivered followed by unread |
| SerialInterleaving.BytesReadInOrder | libraries/SoftwareSerial/SoftwareSerial.cpp:423-436 | over every interleaving, the bytes read are the bytes accepted, in order, and the rest are in the ring |
| SerialInterleaving.DroppedIffFull | libraries/SoftwareSerial/SoftwareSerial.cpp:246-259 | at any point a byte is dropped if and only if 63 are unread |
| SerialInterleaving.AvailableNeverOverstates | libraries/SoftwareSerial/SoftwareSerial.cpp:438-444 | in either order of its loads, available is never more than what is unread |
| SerialInterleaving.RunFromReset | libraries/SoftwareSerial/SoftwareSerial.cpp:179-193 | over every interleaving from a reset on, what was accepted is what was read followed by what is unread |
| SerialInterleaving.GivesUpIffEmpty | libraries/SoftwareSerial/SoftwareSerial.cpp:428-430 | in either order of its loads, and whatever comes in between, read gives up if and only if nothing was unread when it loaded the tail |
| SoftwareSerialPort.SoftwareSerial.Recv | libraries/SoftwareSerial/SoftwareSerial.cpp:246-259 | the ring part of the interrupt is one step of the specification |
| SoftwareSerialPort.SoftwareSerial.Read | libraries/SoftwareSerial/SoftwareSerial.cpp:423-436 | with interrupts in every gap: the next accepted byte, or -1; and -1 only if not listening or nothing was unread at the call |
| SoftwareSerialPort.SoftwareSerial.Available | libraries/SoftwareSerial/SoftwareSerial.cpp:438-444 | between what was unread at the call and what is unread at the return |
| SoftwareSerialPort.SoftwareSerial.Peek | libraries/SoftwareSerial/SoftwareSerial.cpp:507-518 | -1 if and only if not listening, nothing unread, or the next byte is 255; otherwise the next byte as a signed char |
| SoftwareSerialPort.SoftwareSerial.Flush | libraries/SoftwareSerial/SoftwareSerial.cpp:496-505 | forgets what is unread, if listening |
| SoftwareSerialPort.SoftwareSerial.Listen | libraries/SoftwareSerial/SoftwareSerial.cpp:179-193 | true exactly when this object was not the listening one; it alone listens now, on the one ring, and what the other had not read is gone |
| CircularBuffers.StoreAppends | libraries/Ethernet/utility/w5100.cpp:74-94 | a store behind the unread bytes appends to them, though the pointers wrap at 65536 and the ring at 2048 |
| CircularBuffers.StoreElsewhere | libraries/Ethernet/utility/w5100.cpp:37-40 | a store leaves every other ring as it was |
| CircularBuffers.LoadFrom | libraries/Ethernet/utility/w5100.cpp:97-127 | a load from further on is the tail of the load, a shorter one its prefix |
| W5100Chip.GapMoves | libraries/Ethernet/utility/w5100.cpp:92-93 | the distance of two free-running pointers after either moves |
| W5100Chip.W5100.CopyIn | libraries/Ethernet/utility/w5100.cpp:78-90 | the copy, split at the end of the ring, is the byte-by-byte circular one |
| W5100Chip.W5100.SendDataProcessingOffset | libraries/Ethernet/utility/w5100.cpp:74-94 | stores behind the write pointer and moves it past the data |
| W5100Chip.W5100.SendDataProcessing | libraries/Ethernet/utility/w5100.cpp:68-72 | appends to the outgoing queue; nothing unsent is overwritten and no other socket notices |
| W5100Chip.W5100.ReadData | libraries/Ethernet/utility/w5100.cpp:109-127 | the copy out, split at the end of the ring, is the circular one |
| W5100Chip.W5100.RecvDataProcessing | libraries/Ethernet/utility/w5100.cpp:97-107 | gives the bytes at the read pointer, the oldest of the incoming queue, and takes them off unless it only looks |
| Sockets.Send | libraries/Ethernet/utility/socket.cpp:96-137 | appends to the outgoing queue what was accepted, at most 2048 bytes, and says how much |
| Sockets.Recv | libraries/Ethernet/utility/socket.cpp:146-176 | takes the oldest bytes off the incoming queue; 0 at the end of a closed connection, -1 if there is nothing yet |
| Sockets.Peek | libraries/Ethernet/utility/socket.cpp:184-189 | the oldest byte, which stays; from an empty queue, the byte at the read pointer |
| UdpFraming.HeaderFields | libraries/Ethernet/EthernetUdp.cpp:132-136 | the address, port and length computed from the eight bytes are those of the datagram |
| UdpFraming.ApplyKeepsFramed | libraries/Ethernet/EthernetUdp.cpp:118-217 | every call and every arrival keeps the framing |
| UdpFraming.FramingNeverSlips | libraries/Ethernet/EthernetUdp.cpp:118-217 | over every interleaving of arrivals and calls: no datagram is lost or reordered, and what was read of each is a prefix of its payload |
| UdpFraming.ReadsGetThePayload | libraries/Ethernet/EthernetUdp.cpp:147-205 | after the parse that starts a datagram, its reads get its payload from the start, byte after byte and without a gap, however they are cut and whatever arrives, until all of it is there |
| UdpFraming.EndedForGood | libraries/Ethernet/EthernetUdp.cpp:118-121 | after a flush or a parse no more of an earlier datagram is ever got |
| UdpFraming.FlushThenParse | libraries/Ethernet/EthernetUdp.cpp:118-217 | a flush drops what is left of the current datagram and no more: the next parse starts the same datagram as without it |
| EthernetUdpSocket.EthernetUDP.ReadByte | libraries/Ethernet/EthernetUdp.cpp:147-160 | the next byte of the current datagram, or -1; never one of the next datagram |
| EthernetUdpSocket.EthernetUDP.ReadBuffer | libraries/Ethernet/EthernetUdp.cpp:162-193 | as much of the current datagram as fits |
| EthernetUdpSocket.EthernetUDP.PeekByte | libraries/Ethernet/EthernetUdp.cpp:195-205 | the byte that read would return; nothing is consumed |
| EthernetUdpSocket.EthernetUDP.FlushPacket | libraries/Ethernet/EthernetUdp.cpp:207-217 | drops the rest of the current datagram and nothing more |
| EthernetUdpSocket.EthernetUDP.ParsePacket | libraries/Ethernet/EthernetUdp.cpp:118-145 | starts on the header of the next datagram, and returns its length, address and port |
| EthernetUdpSocket.EthernetUDP.Available | libraries/Ethernet/EthernetUdp.cpp:63-65 | the unread bytes of the current datagram |
| SdCardSteps.GuardPasses | libraries/SD/utility/Sd2Card.cpp:362-364 | the 16-bit guard lets a range through if and only if it is inside the block or its end wraps |
| SdCardSteps.AddressedIsBlock | libraries/SD/utility/Sd2Card.cpp:368-368 | a card addressed by byte is sent the address of another block if and only if the block is 2^23 or more |
| SdCardHistory.SpoiledIff | libraries/SD/utility/Sd2Card.cpp:358-443 | a block counts as spoiled if and only if a refused range, a write to block 0 or a wrapping range hit it and it has been open ever since |
| SdCardHistory.LeftIff | libraries/SD/utility/Sd2Card.cpp:362-443 | the card counts as left inside a block if and only if a refused range or a write to block 0 came while an unspoiled block was open, and no command has been sent since |
| SdCardHistory.StepKeeps | libraries/SD/utility/Sd2Card.cpp:330-583 | every read, write and mode change, in every state, keeps what driver and card know of each other |
| SdCardHistory.HistoryKeeps | libraries/SD/utility/Sd2Card.cpp:330-583 | and so does every history |
| SdCardHistory.ReadsAgree | libraries/SD/utility/Sd2Card.cpp:358-422 | after every history, a read inside a block succeeds exactly when the card lets it, with the bytes of the block as they are now, or with idle bytes if it is served from a spoiled block |
| SdCardHistory.ReadAgreesIff | libraries/SD/utility/Sd2Card.cpp:358-422 | a successful read agrees with random access if and only if it opens its block, or the open block is not spoiled, or the range is all idle bytes anyway |
| SdCardHistory.CommandStraysIff | libraries/SD/utility/Sd2Card.cpp:104-129 | after every history, a command is sent inside a block, before its 514th byte, if and only if a refused range or a write to block 0 left the card there |
| SdCardHistory.CarefulIsSound | libraries/SD/utility/Sd2Card.cpp:358-443 | histories without such ranges and writes never spoil a block or send a command inside one, and clock no byte beyond the 514 of a block: the driver has a block open exactly when the card is sending one |
| SdCardHistory.WriteChangesOneBlock | libraries/SD/utility/Sd2Card.cpp:550-583 | a write succeeds if and only if the card programmed it, and then its block holds the data; a write that the card turns down changes nothing, and one that fails later leaves what the card says; no other block changes, and no block is open |
| SdCardHistory.OthersChangeNothing | libraries/SD/utility/Sd2Card.cpp:330-422 | no read, mode change or write to block 0 changes a block |
| SdCardHistory.WrittenStays | libraries/SD/utility/Sd2Card.cpp:550-583 | after every history, a block holds the data of the last write that could change it, if that succeeded |
| SdCardHistory.WrittenReadsBack | libraries/SD/utility/Sd2Card.cpp:358-583 | and a successful read of any range of it returns that data if and only if the block is not served from a spoiled state, or the data is all idle bytes anyway |
| SdCardHistory.FailuresTell | libraries/SD/utility/Sd2Card.cpp:358-583 | every failure leaves its own error code |
| SdCardHistory.FollowsWithoutCommandIff | libraries/SD/utility/Sd2Card.cpp:366-377 | after every history, a read that follows a successful one needs no command if and only if partial reads are wanted and it goes on in the same block at or behind the end of the other |
| SdCardHistory.ModeIsKept | libraries/SD/utility/Sd2Card.cpp:330-333 | the mode is the one that was asked for last |
| SdCardHistory.RefusedRangeSpoils | libraries/SD/utility/Sd2Card.cpp:362-364 | on every card: after a refused range the open block reads as idle bytes, and the next block is asked for inside it |
| SdCardHistory.WriteToZeroSpoils | libraries/SD/utility/Sd2Card.cpp:551-556 | on every card: so they do after a write to block 0 |
| SdCardHistory.WrappingRangeSpoils | libraries/SD/utility/Sd2Card.cpp:412-413 | on every card: after a range that wraps past the guard the block reads as idle bytes |
| SdCardDriver.Sd2Card.ReadEnd | libraries/SD/utility/Sd2Card.cpp:425-443 | the loop clocks to the 514th byte as far as the driver knows, from any state |
| SdCardDriver.Sd2Card.SetPartialBlockRead | libraries/SD/utility/Sd2Card.cpp:330-333 | one step of the history, from any state |
| SdCardDriver.Sd2Card.CardCommand | libraries/SD/utility/Sd2Card.cpp:104-129 | ends the open block and selects the card, from any state; the card has received the argument |
| SdCardDriver.Sd2Card.SendFrame | libraries/SD/utility/Sd2Card.cpp:114-124 | the loop sends a frame in which the card finds the argument |
| SdCardDriver.Sd2Card.WriteData | libraries/SD/utility/Sd2Card.cpp:595-620 | the loop sends the token, the block and two bytes more |
| SdCardDriver.Sd2Card.Transfer | libraries/SD/utility/Sd2Card.cpp:402-409 | the two loops skip to the offset and transfer what the card sends from there |
| SdCardDriver.Sd2Card.ReadData | libraries/SD/utility/Sd2Card.cpp:358-422 | one step of the history: state, success and bytes, from any state |
| SdCardDriver.Sd2Card.ReadBlock | libraries/SD/utility/Sd2Card.cpp:344-346 | the same, for the whole block |
| SdCardDriver.Sd2Card.WriteBlock | libraries/SD/utility/Sd2Card.cpp:550-583 | one step of the history, from any state |
| Crossing.MeetingIsOnBothLines | libraries/SpeedFeed/SpeedFeed.cpp:216-236 | the computed point is on the line through the fixes and on the line through the gate |
| Crossing.MeetingIsUnique | libraries/SpeedFeed/SpeedFeed.cpp:216-236 | no other point is |
| Crossing.DetectsIffSegmentsMeet | libraries/SpeedFeed/SpeedFeed.cpp:196-248 | for x1 != x2, y3 != y4 and fixes that are set: the test on x of one segment and y of the other holds if and only if the closed segments meet |
| Crossing.SegmentsMeetIff | libraries/SpeedFeed/SpeedFeed.cpp:196-248 | exactly when the test is right for all lines that are not parallel: due north, or with a gate due east, the untested coordinate must be in range too |
| Crossing.DetectsAheadDueNorth | libraries/SpeedFeed/SpeedFeed.cpp:238-244 | a gate ahead of the fixes that the test reports |
| LapTimer.DiscriminantIsSquare | libraries/SpeedFeed/SpeedFeed.cpp:81-87 | the discriminant is 4 d^2 (1 + m^2), and not negative |
| LapTimer.GateAcrossTrack | libraries/SpeedFeed/SpeedFeed.cpp:81-93 | before rounding, the ends are symmetric about the second fix, at the distance d without its sign, across the direction of travel |
| LapTimer.Round | libraries/SpeedFeed/SpeedFeed.cpp:95-98 | the greatest whole number of hundredths that is not above the coordinate |
| LapTimer.RoundedDownIsGreatest | libraries/SpeedFeed/SpeedFeed.cpp:95-98 | there is only one such number |
| LapTimer.EndsInOrder | libraries/SpeedFeed/SpeedFeed.cpp:87-93 | the first end is the one with the greater first coordinate |
| LapTimer.Waypoint.constructor | libraries/SpeedFeed/SpeedFeed.cpp:79-108 | each of the four coordinates stored is that of an end, rounded down to hundredths |
| LapTimer.AdjustmentInterpolates | libraries/SpeedFeed/SpeedFeed.cpp:245-246 | for every crossing reported with the meeting point between the fixes: the adjusted time is the floor of the linear interpolation there, and between the times of the fixes |
| LapTimer.MeetingInterpolates | libraries/SpeedFeed/SpeedFeed.cpp:196-248 | so it is whenever the segments meet, due north or not |
| LapTimer.Intersection | libraries/SpeedFeed/SpeedFeed.cpp:196-254 | reports a crossing exactly when the test holds, and only then sets speed and adjustment |
| Eeprom.Memory.WriteAnything | libraries/EEPROMAnything/EEPROMAnything.h:9-18 | the bytes of the value, and no others, change |
| Eeprom.Memory.ReadAnything | libraries/EEPROMAnything/EEPROMAnything.h:20-29 | the bytes at the address |
| WaypointStorage.HeaderWritten | libraries/SpeedFeed/SpeedFeed.cpp:258-260 | of the two overlapping writes, the tag and the low byte of the count survive |
| WaypointStorage.RecordReadsBack | libraries/SpeedFeed/SpeedFeed.cpp:262-271 | the four writes of a gate read back as that gate |
| WaypointStorage.StoreWaypoints | libraries/SpeedFeed/SpeedFeed.cpp:256-272 | leaves the tag, the low byte of the count and every gate, and touches nothing outside |
| WaypointStorage.LoadWaypoints | libraries/SpeedFeed/SpeedFeed.cpp:274-301 | writes the first entries of the vector and pushes blanks behind it |
| WaypointStorage.LoadedAfterStore | libraries/SpeedFeed/SpeedFeed.cpp:256-301 | what loading after storing gives, for any number of gates and any vector |
| WaypointStorage.RoundTripIffAtMost255 | libraries/SpeedFeed/SpeedFeed.cpp:256-301 | storing and loading into an empty vector restores every coordinate if and only if there are at most 255 gates |
| WaypointStorage.LoadOverwritesVector | libraries/SpeedFeed/SpeedFeed.cpp:283-284 | loading into a vector that is not empty overwrites its first gates and ends in blanks |
| Int32.SignedDifference | libraries/Ethernet/Dhcp.cpp:394-399 | the signed difference of two wrapped clock values is the true difference, if that fits in 32 bits |
| DhcpReply.FieldsRead | libraries/Ethernet/Dhcp.cpp:291-375 | from any state, the options of a reply that keep to RFC 2132 are read as what they mean, one after the other |
| DhcpReply.ReplyRead | libraries/Ethernet/Dhcp.cpp:252-381 | a reply that keeps to the standard is taken if and only if it is from a server, for this hardware address and for a transaction of this attempt; then its address, its type and its options are taken, otherwise nothing changes |
| DhcpReply.LastTimesCount | libraries/Ethernet/Dhcp.cpp:346-363 | of several lease, renewal or rebinding times the last one counts, and nothing else of the client changes |
| DhcpReply.LastAddressesCount | libraries/Ethernet/Dhcp.cpp:306-327 | so it is with masks, routers and name servers |
| DhcpReply.ServerStays | libraries/Ethernet/Dhcp.cpp:329-344 | a server that is known stays, whatever messages from others say |
| DhcpReply.ServerNamed | libraries/Ethernet/Dhcp.cpp:329-344 | a client without a server takes the one that a message names, and one whose server sent the message lets it name another |
| DhcpReply.LongIsRead | libraries/Ethernet/Dhcp.cpp:346-363 | times and identifiers are read in network order |
| DhcpReply.CutTimeTurnsRound | libraries/Ethernet/Dhcp.cpp:346-363 | a message that ends before the bytes of a time turns the bytes of the old one around |
| DhcpReply.EndIsPassed | libraries/Ethernet/Dhcp.cpp:295-296 | what follows the end option is read as further options |
| DhcpReply.NakAfterEnd | libraries/Ethernet/Dhcp.cpp:295-304 | so another type after the end of an acknowledgement makes a refusal of it |
| DhcpReply.CutReadsAsTimeout | libraries/Ethernet/Dhcp.cpp:301-304 | a message that ends within its type reads like no message at all |
| DhcpReply.LengthIgnored | libraries/Ethernet/Dhcp.cpp:301-363 | the length byte of a type, mask or time has no influence |
| DhcpReply.ShortListIsRead | libraries/Ethernet/Dhcp.cpp:311-327 | a list of routers or name servers said to be shorter than one address is read as one |
| DhcpLease.DhcpClass.ParseOption | libraries/Ethernet/Dhcp.cpp:293-374 | the switch, on whatever is left of the datagram, is one step of the specification |
| DhcpLease.DhcpClass.ParseOptions | libraries/Ethernet/Dhcp.cpp:291-375 | the loop reads the options to the end of the datagram |
| DhcpLease.DhcpClass.ParseResponse | libraries/Ethernet/Dhcp.cpp:252-381 | any packet, however short: the filter, the options, the type and the identifier are those of the specification, and nothing of the packet is left unread |
| DhcpLease.DhcpClass.BeginWithDhcp | libraries/Ethernet/Dhcp.cpp:11-28 | clears times and addresses, and makes an attempt from START |
| DhcpLease.AckGrants | libraries/Ethernet/Dhcp.cpp:89-108 | an acknowledgement that keeps to the standard gives the address, and the counters that its times, those of the replies before it, or the defaults give |
| DhcpLease.NakRestarts | libraries/Ethernet/Dhcp.cpp:110-111 | a refusal makes the client start over |
| DhcpLease.OfferIsTakenUp | libraries/Ethernet/Dhcp.cpp:72-84 | an offer that keeps to the standard is taken up: the client waits for its acknowledgement, in its transaction, with its address and times |
| DhcpLease.Sends | libraries/Ethernet/Dhcp.cpp:60-71 | START asks for offers and REREQUEST for the lease, each in a transaction of its own |
| DhcpLease.WaitsOn | libraries/Ethernet/Dhcp.cpp:72-118 | a reply for another client or transaction changes nothing; when none comes, the client starts over |
| DhcpLease.HandshakeGrants | libraries/Ethernet/Dhcp.cpp:58-123 | from START, a first turn, an offer and its acknowledgement lead to a lease with the address of the acknowledgement, and with the times that it, the offer or the defaults give; nothing later is waited for |
| DhcpLease.RenewalGrants | libraries/Ethernet/Dhcp.cpp:66-71 | from REREQUEST, an acknowledgement alone does |
| DhcpLease.AttemptSucceeds | libraries/Ethernet/Dhcp.cpp:36-128 | an attempt in which that happens returns 1 |
| DhcpLease.RenewalIsGranted | libraries/Ethernet/Dhcp.cpp:422-426 | a check at which a renewal is due, and acknowledged, returns 2, and the counters start again |
| DhcpLease.RebindingIsGranted | libraries/Ethernet/Dhcp.cpp:428-434 | one at which a lease is to be asked for anew, and is offered and acknowledged, returns 4 |
| DhcpLease.RebindingForgets | libraries/Ethernet/Dhcp.cpp:428-434 | the addresses the client had before do not matter then |
| DhcpLease.ResultTells | libraries/Ethernet/Dhcp.cpp:383-391 | the result of a check tells whether anything was asked for, which attempt was the last, and whether the client has a lease |
| DhcpLease.FirstLease | libraries/Ethernet/Dhcp.cpp:11-28 | from the beginning, the same handshake gives the first lease, whose times owe nothing to earlier ones |
| DhcpLease.IdsInRange | libraries/Ethernet/Dhcp.cpp:59-81 | whatever the replies, the transaction identifiers that are answered are those of this attempt |
| DhcpLease.DhcpClass.RequestLease | libraries/Ethernet/Dhcp.cpp:36-128 | the loop of an attempt, for every sequence of replies; 1 if and only if it ends with a lease |
| DhcpLease.DhcpClass.CheckLease | libraries/Ethernet/Dhcp.cpp:392-441 | one check of the lease is one step of the specification, state and result |
| DhcpClock.TickSynced | libraries/Ethernet/Dhcp.cpp:396-420 | a tick moves the timeout by whole seconds to the next one, and takes the seconds that passed from both counters |
| DhcpClock.NoDrift | libraries/Ethernet/Dhcp.cpp:392-441 | after every check of every run, whatever the requests, the timeout is the first whole second after it, counted from the first check |
| DhcpClock.ZeroClockRestarts | libraries/Ethernet/Dhcp.cpp:396-436 | a check at a zero clock makes the next one start over: the time between is lost, and the old phase survives if and only if that check falls on one of its whole seconds |
| DhcpClock.QuietRun | libraries/Ethernet/Dhcp.cpp:396-420 | while nothing is requested, both counters are the true numbers of seconds left |
| DhcpClock.RenewsOnTime | libraries/Ethernet/Dhcp.cpp:407-434 | the first request comes at the first check that leaves fewer true seconds, to whichever counter is due first, than its own cycle; and for steady cycles these seconds are not negative |
| DhcpClock.DefaultTimes | libraries/Ethernet/Dhcp.cpp:93-107 | without options: renewal at half the lease, rebinding at its end; the rebinding counter is lost if and only if the lease is below 2 or at least 2^31 seconds |
| DhcpClock.AsksAtOnce | libraries/Ethernet/Dhcp.cpp:422-434 | a lease with a counter at or below zero is asked for at every check |
| DhcpClock.StuckForever | libraries/Ethernet/Dhcp.cpp:422-434 | in the states DISCOVER, REQUEST and REREQUEST no later check asks for anything |
| DhcpClock.NoSocketStops | libraries/Ethernet/Dhcp.cpp:46-50 | a renewal that finds no free socket is the last request the client makes |
| DhcpClock.StartAsksAgain | libraries/Ethernet/Dhcp.cpp:428-434 | a client in START asks again, at the latest at the visit at which its rebinding counter has run out |
| DhcpClock.StartAsksAtOnce | libraries/Ethernet/Dhcp.cpp:428-434 | if the counter has run out already, at the next visit |
| DhcpClock.AsksAgainIff | libraries/Ethernet/Dhcp.cpp:69-121 | after an attempt that ran out of time, visits that go on until the rebinding counter has run out ask again if and only if its last turn timed out or was refused; otherwise no visit ever does |
| ServoTimers.InterruptIsLocal | libraries/Servo/Servo.cpp:75-98 | with distinct pins, an interrupt sees and moves only the pins of its own timer |
| ServoTimers.Servos.HandleInterrupts | libraries/Servo/Servo.cpp:75-98 | the interrupt is one step of the specification, on the registers of its timer and the pins |
| ServoTimers.Servos.Fire | libraries/Servo/Servo.cpp:75-98 | the other timers do not notice it |
| ServoFrames.ChannelsInTurn | libraries/Servo/Servo.cpp:75-98 | from a refresh on, channel after channel is pulsed and nothing else, though widths change meanwhile; after the last all pins are low |
| ServoFrames.PinHighForItsTicks | libraries/Servo/Servo.cpp:75-98 | the pin of an active channel is high in its own turn only, for exactly its ticks |
| ServoFrames.OnePinAtMost | libraries/Servo/Servo.cpp:75-98 | from power-up on, no two pins of a timer are high together |
| ServoFrames.Frame | libraries/Servo/Servo.cpp:90-97 | from a refresh to the next, for all widths that any limits allow |
| ServoFrames.FramesAddUp | libraries/Servo/Servo.cpp:75-98 | over any number of frames, with widths that change at any time, each refresh comes when the frames before it add up to |
| ServoFrames.FrameLengthIff | libraries/Servo/Servo.cpp:92-95 | a frame lasts max(40000, pulses + 4) ticks if and only if its pulses and four ticks fit in 16 bits |
| ServoFrames.FrameTooLong | libraries/Servo/Servo.cpp:92-95 | twelve servos with the longest pulses: a frame of 105536 ticks |
| ServoFrames.DefaultFrame | libraries/Servo/Servo.cpp:90-97 | with the default limits they always do, and the count never wraps |
| ServoObject.Servo.Attach | libraries/Servo/Servo.cpp:260-275 | stores pin and limits, which stay within what the scheduler can take, and restarts the count if no servo of the timer was active |
| ServoObject.Servo.WriteMicroseconds | libraries/Servo/Servo.cpp:297-315 | stores the clamped and trimmed pulse as ticks in the range of the scheduler, and changes nothing else |
| ServoObject.Servo.Write | libraries/Servo/Servo.cpp:286-295 | small values are angles, mapped onto the limits |
| ServoObject.Servo.ReadMicroseconds | libraries/Servo/Servo.cpp:323-332 | the pulse that was last requested, moved within the limits |
| ServoObject.Servo.Read | libraries/Servo/Servo.cpp:318-321 | the angle that was last written; for a requested pulse, the whole degrees in one microsecond more than it |
| ServoObject.AttachKeepsLimitIff | libraries/Servo/Servo.cpp:266-267 | a limit is kept exactly if and only if its difference from the default is a multiple of four that fits |
| ServoObject.PulseReadsBack | libraries/Servo/Servo.cpp:297-332 | for all requests and limits the ticks are in range, and the pulse read back is the request moved within the limits |
| ServoObject.ClampIsNearest | libraries/Servo/Servo.cpp:302-305 | a request is moved to the nearest pulse within the limits |
| ServoObject.RequestedIs | libraries/Servo/Servo.cpp:286-295 | values of 544 and more are pulses; smaller ones are angles between 0 and 180, whose pulse is the largest whole number of microseconds that is not above the exact one |
| ServoObject.AngleReadsBack | libraries/Servo/Servo.cpp:286-332 | every angle written is the angle read back |
| NmeaDecoder.SplitJoins | libraries/NMEA/nmea.cpp:88-93 | joining the terms gives the body back |
| NmeaDecoder.JoinSplits | libraries/NMEA/nmea.cpp:88-93 | and splitting what was joined gives the terms back: the comma split is the only one |
| NmeaDecoder.MatchesIff | libraries/NMEA/nmea.cpp:80-83 | six matching characters if and only if the body starts with GPRMC and a comma |
| NmeaDecoder.BodyRead | libraries/NMEA/nmea.cpp:62-106 | from any state, after "$" the decoder has exactly the terms, tag and parity of what it read, as long as its buffers hold it |
| NmeaDecoder.SentenceDecoded | libraries/NMEA/nmea.cpp:62-178 | from any state a sentence is answered by 1 on its last character if and only if it is within the limits, its checksum is right and it passes the filter; then sentence and terms are published, otherwise nothing changes |
| NmeaDecoder.BoundedIff | libraries/NMEA/nmea.cpp:63-64 | the limits: 95 characters of body, 29 terms, 14 characters a term |
| NmeaDecoder.SentenceRoomyIff | libraries/NMEA/nmea.cpp:118-121 | from any state, a sentence has its terminator written past the end of the buffer if and only if its body has exactly 96 characters and terms that all fit |
| NmeaDecoder.SomeBodyHasNoRoom | libraries/NMEA/nmea.cpp:118-121 | there are such bodies |
| NmeaDecoder.StreamDecoded | libraries/NMEA/nmea.cpp:62-178 | over a stream of good and bad sentences with anything but "$" between them, exactly the acceptable ones are published, once and in order |
| NmeaDecoder.StreamRoomy | libraries/NMEA/nmea.cpp:62-178 | and over such a stream no character is written past a buffer |
| NmeaDecoder.DigitsClaim | libraries/NMEA/nmea.cpp:299-308 | of the upper-case hex digits, exactly those of a value claim it |
| NmeaDecoder.ParityIsOddness | libraries/NMEA/nmea.cpp:84-105 | each bit of the checksum is set if and only if an odd number of characters have it set |
| NmeaDecoder.CopiedUpToNul | libraries/NMEA/nmea.cpp:134-142 | a term is copied up to its first NUL |
| NmeaDecoder.OneCharacterChanged | libraries/NMEA/nmea.cpp:62-178 | from any state, an acceptable sentence with one character of its body changed: nothing is published, unless the new character is one that ends or starts a sentence; then it is what is left of the old one, if that is acceptable |
| NmeaDecoder.StarPublishesIff | libraries/NMEA/nmea.cpp:95-115 | a character changed to an asterisk publishes something if and only if the two characters that follow claim the parity of those before it, and with the filter the type has been read |
| NmeaDecoder.DollarPublishesIff | libraries/NMEA/nmea.cpp:67-76 | a character changed to a dollar sign does if and only if the old characters up to and including it have parity 0, and with the filter what follows is of the type |
| NmeaDecoder.StarTakesOver | libraries/NMEA/nmea.cpp:95-115 | one changed character of an acceptable sentence, and the first half of it is published |
| NmeaDecoder.DollarTakesOver | libraries/NMEA/nmea.cpp:67-76 | and the second half |
| NmeaClass.NMEA.constructor | libraries/NMEA/nmea.cpp:31-54 | waiting, with nothing published |
| NmeaClass.NMEA.PublishSentence | libraries/NMEA/nmea.cpp:132-133 | the whole sentence with its terminator is copied |
| NmeaClass.NMEA.PublishTerms | libraries/NMEA/nmea.cpp:134-142 | every term is copied up to its NUL |
| NmeaClass.NMEA.DecodeBody | libraries/NMEA/nmea.cpp:78-106 | a character before the checksum, in the fixed buffers |
| NmeaClass.NMEA.DecodeLast | libraries/NMEA/nmea.cpp:113-169 | the last character: terminators, verdict and publication |
| NmeaClass.NMEA.Decode | libraries/NMEA/nmea.cpp:62-178 | one character, if its terminator has room, is one step of the specification, in fixed buffers |
| DnsMessages.LabelsOfDotted | libraries/Ethernet/Dns.cpp:215-236 | the labels of a name are those it was put together from, with or without a final dot |
| DnsMessages.NamesArePrefixFree | libraries/Ethernet/Dns.cpp:312-336 | no encoded name is the start of another, so where a name ends is never in doubt |
| DnsMessages.DecodeOfEncoded | libraries/Ethernet/Dns.cpp:315-331 | the skipping loop, as a function on bytes, passes over exactly the encoded labels |
| DnsMessages.EncodedOfDecode | libraries/Ethernet/Dns.cpp:315-331 | and whatever it passes over is the encoding of labels of at most 255 bytes |
| DnsMessages.RequestIsQuestion | libraries/Ethernet/Dns.cpp:175-252 | a request is its header and one question |
| DnsMessages.NameIsSentIff | libraries/Ethernet/Dns.cpp:215-243 | the skipping loop, run on a request, passes over exactly the labels of the name, up to type and class, if and only if no label is longer than 255 |
| DnsMessages.LongLabelEndsName | libraries/Ethernet/Dns.cpp:229-233 | a label of 256 bytes: the name ends before it |
| DnsMessages.LongLabelReadsAsOthers | libraries/Ethernet/Dns.cpp:229-233 | a label of 257 bytes that is consumed exactly, as the labels of another name |
| DnsMessages.EchoPassesHeader | libraries/Ethernet/Dns.cpp:273-309 | a response with the identifier of the request, no error and an answer gets past the header |
| DnsMessages.HeaderCodeIff | libraries/Ethernet/Dns.cpp:276-309 | -4 if and only if the response is not one to this request, -5 if and only if it is cut or reports an error, -6 if and only if it counts no answers |
| DnsMessages.RequestHeaderIs | libraries/Ethernet/Dns.cpp:175-212 | one question, in a standard query that wants recursion, and nothing else |
| DnsMessages.DecisionIsUnique | libraries/Ethernet/Dns.cpp:345-415 | the answers leave no choice of result or address |
| DnsMessages.FirstAddressDecides | libraries/Ethernet/Dns.cpp:345-411 | the first answer of type 1 and class 1 gives the address, if it has four bytes, and -9 otherwise, whatever comes before and after it |
| DnsMessages.NoAddressDecides | libraries/Ethernet/Dns.cpp:415-421 | without such an answer the result is -10 |
| DnsMessages.AnswerExample | libraries/Ethernet/Dns.cpp:347-411 | an answer as it stands on the wire |
| DnsClient.DNSClient.BuildRequest | libraries/Ethernet/Dns.cpp:175-252 | writes the header, the labels, and type and class |
| DnsClient.DNSClient.SkipQuestionName | libraries/Ethernet/Dns.cpp:315-331 | for any bytes that a name ends in: leaves what the skipping function leaves |
| DnsClient.DNSClient.SkipAnswerName | libraries/Ethernet/Dns.cpp:347-380 | consumes exactly a name that ends in a zero byte or in a pointer |
| DnsClient.DNSClient.SkipQuestions | libraries/Ethernet/Dns.cpp:312-338 | consumes exactly the questions |
| DnsClient.DNSClient.ReadAnswer | libraries/Ethernet/Dns.cpp:345-414 | consumes exactly one answer; it decides if and only if it is an internet address |
| DnsClient.DNSClient.ProcessResponse | libraries/Ethernet/Dns.cpp:267-422 | a wrong sender, a short packet and a bad header each give their code; otherwise the first address answer decides: its four bytes, or an error if its length is not four |

## Left out

- Aes.AesEncr: the hand-unrolled body is one method here for each row and column, called in the order of the source; so is Aes.AesDecr.
- XBeeSender.SerialOut.Send: a request is its api id, frame id and data bytes; the `getFrameData` methods that produce those bytes by position, and the field accessors of the responses, are concatenations and slices.
- XBeeReceiver.XBee.ReadPacket: escaped mode (ATAP = 2) only, as compiled; `readPacket(timeout)` only repeats it.
- XBeeDelivery.RequestsAreDelivered: serial ports that lose bytes are not modelled; broken frames are covered by OneByteCorrupted and AfterUnexpectedStart.
- SoftwareSerialPort.SoftwareSerial.Recv: the ring part, for the listening object; sampling of bits, delays and pins are left out, and so is the order in which a compiler may move the load of the non-volatile buffer past the store of the head.
- SoftwareSerialPort.SoftwareSerial.Available: with the tail loaded first; the other order is in AvailableNeverOverstates.
- Sockets.Send: its two waits on the chip are parameters that say how each ends.
- W5100Chip.W5100.SendDataProcessingOffset: incremental transmission of a datagram through `_offset` depends on undocumented behaviour of the write pointer; the copy and the pointer are covered, the resulting datagram is not.
- EthernetUdpSocket.EthernetUDP.ReadByte: the chip delivers whole datagrams that fit its ring; `begin`, `stop` and the sending methods are left out.
- SdCardDriver.Sd2Card.ReadData: a card's reply to a command is a parameter; a command that comes inside a block is counted and taken to end the block, though a real card may do otherwise. The pipelined variant for hardware SPI clocks the same number of bytes and is not modelled separately; nor are register reads, erasure and multiple-block writes.
- SdCardDriver.Sd2Card.WriteBlock: what a block holds after a failed or timed-out programming is a parameter.
- LapTimer.Waypoint.constructor: fixes at different latitudes only, since otherwise the slope is an infinity or a NaN; its other fields are constants. Reals are exact, and a square root is any number that is not negative and has the right square.
- LapTimer.Intersection: over exact reals; the zero denominator, whose quotient fails every comparison, is an explicit `false`.
- WaypointStorage.StoreWaypoints: addresses that wrap are left out, and so are stored counts whose records pass the end of the memory in WaypointStorage.LoadWaypoints; coordinates are byte strings of the size of a `double`, one to eight bytes.
- DhcpLease.DhcpClass.ParseResponse: packets are parameters, and so is what an uninitialised local variable holds before a packet that is too short; the messages that are sent are left out.
- DhcpLease.DhcpClass.RequestLease: the replies of its turns, the random transaction identifier, and the moment its time is up, are parameters.
- ServoTimers.Servos.HandleInterrupts: the interrupt takes no time and comes exactly at the match; detaching a servo in the middle of a pulse is left out.
- ServoFrames.ChannelsInTurn: from a refresh on; before the first refresh the first channel is not pulsed.
- NmeaClass.NMEA.Decode: what is beyond the sentence buffer, which the terminator of a 100-character sentence would overwrite, is not modelled; SentenceRoomyIff says exactly when that is. The numeric fields of an accepted GPRMC sentence, floating-point decoding of terms and the distance and course functions are left out.
- DnsClient.DNSClient.ProcessResponse: a packet whose header is good holds the records it counts; on truncated packets the skipping loops need not end. The wait for a packet, and `getHostByName` with its retries, are left out.
- `inet_aton` as a validator: its character test is always true.
- The CC3000 SPI driver and its command wrappers: the receive path is largely commented out, the rest is argument marshalling.
- SPI, serial, pin and register access, busy waits, delays and debug printing: abstract bytes, memory or clocks here.
- Firmata, Wire, Stepper, FSM, LCD, LED, Esplora and WiFi: easier variants of the above, or thin input and output.
- StandardCplusplus, and the FAT layer over the SD card, are not part of this model.
