# A verified model of KVMD

KVMD is the daemon of PiKVM: it turns a single-board computer into a keyboard, video and mouse switch
that is operated over a network. This project models the parts of it whose behaviour is decided by
their own state and arithmetic, and proves what they keep over every run.

| file | what it models |
|---|---|
| `Bits.dfy`, `Crc16.dfy` | XOR on integers; the CRC-16 of the wire protocol, as the C and the Python code compute it, against bit-serial polynomial division |
| `HidProtocol.dfy` | the firmware's request handler and response composer |
| `HidDamage.dfy` | which damage to a request the checksum notices |
| `HidUart.dfy` | the serial transport with its timeout, and the main loop over it |
| `SpiLink.dfy` | the SPI transport: an interrupt handler and a polling loop that share two buffers without locks, as a state machine of single memory accesses |
| `HidHost.dfy` | the host's retry loop over a line that loses and damages, against the request handler |
| `SpiFirmware.dfy` | the request handler and the main loop over the SPI transport |
| `UsbKeyboard.dfy` | the six-slot keyboard report, its acknowledgement flag and the detection of a long offline |
| `EdidCea.dfy`, `EdidFields.dfy`, `EdidFile.dfy`, `Edid.dfy` | the EDID editor: the CEA extension's parser and printer, the bit-packed fields, checksums and file formats, and the object that edits its bytes in place |
| `EdidSaving.dfy`, `EdidExamples.dfy` | sessions of loading, editing and saving, and the images on which the editor fails |
| `VncSender.dfy` | the frame sender of the VNC server, which merges, drops and resumes H.264 frames |
| `VncSchedules.dfy` | which schedules of the sender lose parts of the stream |
| `YamlMerge.dfy`, `YamlInPlace.dfy` | merging configuration layers, as values and as dictionary objects updated in place |
| `YamlConfig.dfy` | reading two layers against a scheme whose defaults are overwritten on the way |
| `AuthSessions.dfy` | login sessions and the websockets that extend them |
| `NbdController.dfy` | the network block device controller: binds and one poller, interleaved |
| `Keysym.dfy`, `TextPrinter.dfy`, `LayoutTyping.dfy` | from a layout file to the key events that type a text |
| `MagicHandler.dfy` | the timed Alt-Alt hotkeys |
| `LocalHid.dfy` | relaying a local keyboard and mouse |
| `GpioPoller.dfy` | full and partial GPIO states over a notifier that coalesces |
| `Stun.dfy` | decoding STUN answers (sections 15 and 15.2 of RFC 5389, section 11.2 of RFC 3489) |
| `Wrappers.dfy` | optional values and results |

Each part has a reference written in the terms of its history or its inputs (the keys really held, the
chains of taps really unbroken, the stream really sent), a step function with the branches of the
code, and, where the code changes state, a class or loop proved equal to that step. The main theorems
then relate step function and reference over all runs, all inputs and all interleavings. What the
parts of a format mean (bits, byte order, codes, words of a line) is fixed by laws that do not go through
the functions that write or read them. Suspension points of the asynchronous code separate the atomic
steps.

Some properties one might expect do not hold of the code; the model keeps the code as it is and states
exactly when they do:

- The firmware's checksum register takes the bits of a byte from the least significant one on, while the
  frame carries the checksum high byte first. A burst of at most 16 bits that crosses from the checked
  bytes into the checksum can therefore be accepted, and the wrong request executed
  (`HidDamage.DamageIsAcceptedIff`, `HidDamage.DamagedMoveIsExecuted`).
- A block of an EDID whose payload sums to 0 modulo 256 is given the checksum 256 instead of 0, and
  then neither file format can be read back (`EdidFile.HexRoundTrip`, `EdidFile.BinRoundTrip`,
  `EdidExamples.SavedImageIsRejected`). Where the extension's blocks take the checksum for data, saving
  can also spoil the audio state (`EdidSaving.SavingKeepsFieldsIff`, `EdidExamples.SavingLosesAudio`).
- A CEA payload that fills its 123 bytes loses its last descriptor when it is read, which switching the
  audio on can bring about (`EdidCea.RoundTripIff`, `EdidExamples.AudioLosesDescriptor`).
- A frame that finds the VNC server's queue full makes it lose the oldest one, and if that was part of
  the H.264 stream, the stream is sent with a hole (`VncSchedules.PayloadIsWholeIff`, `VncSchedules.HoledPayloadIsSent`).
- Merging is associative, and reading layers agrees with merging them, only under the conditions of
  `YamlMerge.MergeIsAssociativeIff` and `YamlConfig.LayeredIsMergedIff`.
- A choice whose key is one of its own modifiers releases that modifier behind the text generator's back
  (`TextPrinter.LazyTypesNaivelyIff`, `TextPrinter.OwnModifierSpoils`); maps that have been loaded contain
  none, so texts are typed faithfully with every layout (`LayoutTyping.PrintText`).
- The host performs a request twice when a response gets lost, never sends a refused request again once
  the refusal is damaged, and can take an earlier answer for a request that was lost
  (`HidHost.AtMostOnceIff`, `HidHost.LostResponseDoubles`, `HidHost.DamagedBothWays`,
  `HidHost.EarlierAnswerIsTaken`).
- STUN padding is not skipped (`Stun.ReadsBackIffAligned`).
- A device without sync reports relays no key while it is grabbed (`LocalHid.KeysComeThroughIff`).
- A seventh key takes the slot of one that is still held (`UsbKeyboard.SeventhKeyEvicts`,
  `UsbKeyboard.HostSeesHeldIff`).

Section 3.11 of the E-EDID standard (release A2) asks for a checksum byte that makes a block sum to
zero; where a block would need the byte 0, the model follows the code.

## Model

| member | source | states |
|---|---|---|
| `Crc16.BurstDetected` | hid/pico/src/ph_tools.h:28-44 | for messages of any length, every corruption confined to a burst of at most 16 consecutive bits changes the checksum |
| `Crc16.AdjacentBytesDetected` | hid/pico/src/ph_tools.h:28-44 | every corruption confined to two adjacent bytes changes the checksum |
| `Crc16.CrcAffine` | kvmd/bitbang.py:24-34 | the XOR of two messages' checksums depends only on the XOR of the messages: the checksum is affine |
| `Crc16.SerialIsParallel` | hid/pico/src/ph_tools.h:33-42 | XORing in a byte and shifting eight times is feeding its bits one by one, so the byte-wise loop computes the bit-serial division |
| `Crc16.ShiftInjective` | hid/pico/src/ph_tools.h:35-40 | one shift step is injective on 16-bit words |
| `Crc16.WindowInjective` | hid/pico/src/ph_tools.h:28-44 | different 16-bit windows fed from one state reach different states |
| `Crc16.CrcIsWord` | kvmd/bitbang.py:24-34 | the unbounded-integer version never leaves 0..0xFFFF |
| `Crc16.PhCrc16` | hid/pico/src/ph_tools.h:28-44 | the 16-bit C loop returns the bit-serial checksum of the first `len` bytes; the Arduino version has the same text |
| `Crc16.MakeCrc16` | kvmd/bitbang.py:24-34 | the Python loop returns the same checksum, within 16 bits |
| `HidProtocol.SplitMerge` | hid/arduino/src/proto.h:134-141 | splitting a word into bytes and merging them again are inverse to each other |
| `HidDamage.DamageIsAcceptedIff` | hid/pico/src/main.c:44-47 | for any damage to a well-formed request: it is executed if and only if the magic byte survived and the register, run from zero over the damage of the six checked bytes, gives the damage of the checksum field; otherwise it is a CRC error without effect |
| `HidDamage.DamagedRequestIsInert` | hid/pico/src/main.c:44-67 | a burst of at most 16 bits within the six checked bytes, or within the checksum, is answered with a CRC error and has no effect |
| `HidDamage.DamagedPairIsInert` | hid/pico/src/main.c:44-67 | so is any damage to two neighbouring bytes other than the last checked byte and the first of the checksum |
| `HidDamage.SeamDamageIsAcceptedIff` | hid/pico/src/main.c:44-47 | damage to just those two bytes is accepted if and only if eight shifts of the one difference give the other in the high byte |
| `HidDamage.DamagedMoveIsExecuted` | hid/pico/src/main.c:44-57 | a mouse request that, damaged by one burst of nine bits, is executed with another position |
| `HidProtocol.RepeatIsSafe` | hid/pico/src/main.c:61-75 | however many repeat requests follow a history, no effect happens again, no reset is demanded, and the code answered stays the last non-zero one |
| `HidProtocol.CommandMeans` | hid/pico/src/main.c:44-67 | by command code: settings and input events act and are acknowledged, ping and connection are only acknowledged, 2 repeats, all else is refused, and 3 and 4 demand a reset |
| `HidProtocol.ResponseReadable` | hid/pico/src/main.c:69-95 | every response is sealed with a valid checksum and the host can read each status flag and the outputs back from it |
| `HidProtocol.Handler.HandleRequest` | hid/pico/src/main.c:41-67 | performs exactly the effects of the frame, once, and returns its code; the effect list and the reset flag follow the history of inputs |
| `HidProtocol.Handler.SendResponse` | hid/pico/src/main.c:69-102 | sends the code, or for a repeat the last non-zero one, with the status of the moment, sealed |
| `HidProtocol.Handler.DataHandler` | hid/pico/src/main.c:104-106 | the response to a frame is the one its whole history of inputs calls for |
| `HidProtocol.Handler.TimeoutHandler` | hid/pico/src/main.c:108-110 | the response to a timeout is the one its whole history of inputs calls for |
| `HidUart.ByteAccounting` | hid/pico/src/ph_com_uart.c:55-71 | over any run each received byte is in exactly one delivered frame of eight, one discard of one to seven, or the pending prefix, in order |
| `HidUart.FramesAreOctets` | hid/pico/src/ph_com_uart.c:55-71 | without timeouts the frames are exactly the consecutive groups of eight bytes |
| `HidUart.OutcomeIff` | hid/pico/src/ph_com_uart.c:55-71 | over any run a poll gives up the pending bytes if and only if it finds none and the last came more than 100 ms ago on the 64-bit clock, and delivers if and only if it finds the eighth |
| `HidUart.ComUart.Task` | hid/pico/src/ph_com_uart.c:55-71 | the in-place buffer, index and timestamp behave as the receiver's specification |
| `HidUart.Firmware.Turn` | hid/pico/src/main.c:121-128 | one turn of the main loop keeps byte accounting and one response per input, and polls nothing once a reset is demanded |
| `HidHost.PerformedAsHeard` | kvmd/plugins/hid/_mcu/__init__.py:370-438 | over any losses, damage the checksums notice, reboots and power cuts, a call of the host performs its request exactly as often as the device has heard it |
| `HidHost.AtMostOnceIff` | kvmd/plugins/hid/_mcu/__init__.py:370-438 | a call performs its request at most once if and only if no attempt that was heard, and whose response was not received, is followed by one that is heard again |
| `HidHost.ExactlyOnceIff` | kvmd/plugins/hid/_mcu/__init__.py:370-438 | a successful call for which no noise was read on a line where nothing had been heard has performed its request, and just once if and only if no unanswered attempt was heard again |
| `HidHost.DoneUnheard` | kvmd/plugins/hid/_mcu/__init__.py:383-401 | a success without performance happens only if the device heard nothing of the request, noise was read, and the answer taken is that to an earlier request |
| `HidHost.RepeatsOnly` | kvmd/plugins/hid/_mcu/__init__.py:387-389 | from the first damaged response on nothing is performed any more, and unless the device's last code was good the call does not succeed on any line |
| `HidHost.CallsEndRightly` | kvmd/plugins/hid/_mcu/__init__.py:375-438 | a call ends with the first attempt accepted (codes 0x20, 0x80 and up) or refused (0x45, 0x24), or without one when the power is gone, all attempts are made, or as many as allowed met silence; and what the caller is told then |
| `HidHost.DamagedBothWays` | kvmd/plugins/hid/_mcu/__init__.py:387-394 | a damaged request whose refusal is damaged too is never sent again: the call does not succeed, however good the line becomes |
| `HidHost.LostResponseDoubles` | kvmd/plugins/hid/_mcu/__init__.py:379-386 | any acting request, but one that resets the device, whose response is lost once is performed twice |
| `HidHost.EarlierAnswerIsTaken` | kvmd/plugins/hid/_mcu/__init__.py:387-404 | a request lost while noise is read: the call succeeds with the answer to the request before, and nothing is performed |
| `HidHost.Line.Send` | kvmd/plugins/hid/_mcu/__init__.py:379-380 | one exchange with the real handler of the firmware at the end of the line, rebooted or not, has the specified effect and answer |
| `HidHost.Line.ProcessRequest` | kvmd/plugins/hid/_mcu/__init__.py:370-438 | the retry loop with its two counters, the switch to repeats and the final power test ends as specified, against the real handler |
| `SpiLink.CapturedMeaning` | hid/pico/src/ph_com_spi.c:104-117 | a captured request is the eight bytes that start at the first non-zero byte |
| `SpiLink.TxKeepsInv` | hid/pico/src/ph_com_spi.c:90-102 | one byte sent by the interrupt handler keeps the invariant |
| `SpiLink.RxKeepsInv` | hid/pico/src/ph_com_spi.c:104-117 | one byte received by the interrupt handler keeps the invariant |
| `SpiLink.MainKeepsInv` | hid/pico/src/ph_com_spi.c:73-84 | one memory access of the main loop keeps the invariant |
| `SpiLink.StepKeepsInv` | hid/pico/src/ph_com_spi.c:73-121 | any single access of either party keeps the invariant, among it: a first output byte means a complete request, and `receiving` means one to seven bytes |
| `SpiLink.SegmentsAreFaithful` | hid/pico/src/ph_com_spi.c:104-117 | the segments between responses are, joined, exactly the bytes received |
| `SpiLink.SendingIsFaithful` | hid/pico/src/ph_com_spi.c:90-102 | one byte is sent whenever there is room for one |
| `SpiLink.EveryInterleavingIsCorrect` | hid/pico/src/ph_com_spi.c:73-121 | in every interleaving each callback gets the request captured since the previous response left, each request has one callback and one response, and the bytes sent are idle zeros and whole untorn responses in callback order |
| `SpiLink.BuffersAreHeld` | hid/pico/src/ph_com_spi.c:73-84 | while the callback runs or a response is stored, interrupts change neither buffer and send only zeros |
| `SpiLink.PendingRequestIsServed` | hid/pico/src/ph_com_spi.c:73-77 | a complete request is being served two main-loop accesses later, whatever interrupts come between |
| `SpiLink.ResponseLeaves` | hid/pico/src/ph_com_spi.c:90-102 | a stored response is out as soon as the bus has asked for its remaining bytes |
| `SpiLink.Port.FillTx` | hid/pico/src/ph_com_spi.c:92-102 | one turn of the sending loop on the real buffers is the model's sending step and is recorded as such |
| `SpiLink.Port.DrainRx` | hid/pico/src/ph_com_spi.c:104-117 | one turn of the receiving loop on the real buffers is the model's receiving step and is recorded as such |
| `SpiLink.Port.XferIsr` | hid/pico/src/ph_com_spi.c:86-121 | the handler extends the run of the model by one sending action for each room in the FIFO and then one receiving action for each byte that came, in order |
| `SpiLink.Port.Interrupts` | hid/pico/src/ph_com_spi.c:86-121 | interrupts between two accesses extend the run by all their actions, in order, and leave a waiting request alone |
| `SpiLink.Port.Poll` | hid/pico/src/ph_com_spi.c:73-77 | the two tests, interrupts before each, extend the run by what happened, and succeed if and only if the first access finds no response and the second a complete request |
| `SpiLink.Port.Read` | hid/pico/src/ph_com_spi.c:73-77 | reading the request byte by byte, interrupted anywhere, yields the buffer as it was and extends the run by just these accesses |
| `SpiLink.Port.Task` | hid/pico/src/ph_com_spi.c:73-77 | one poll with interrupts before any access: it serves if and only if its two tests succeed in the states they find, hands over the buffered request, stores the response, and extends the run by exactly its accesses and the interrupts between them |
| `SpiLink.Port.Write` | hid/pico/src/ph_com_spi.c:79-84 | storing a response from its last byte to its first, interrupted anywhere, leaves it whole and extends the run by the eight stores and the interrupts between them |
| `SpiLink.Port.MemoryIsCorrect` | hid/pico/src/ph_com_spi.c:73-121 | at every moment of the real memory: the requests are the captures of the received segments, the frames decoded from the bytes sent are the responses in order, and the bytes are those of the recorded actions |
| `SpiFirmware.Firmware.Turn` | hid/pico/src/main.c:121-128 | a turn of the main loop over SPI serves at most one request, a waiting one surely, with the response its history calls for, and none once a reset is demanded while interrupts go on |
| `SpiFirmware.Firmware.EffectsAreOfRequests` | hid/pico/src/main.c:104-128 | at most once over SPI: the effects performed are those of the requests captured from the received bytes, in order, and the frames the host decodes are the responses these requests call for |
| `UsbKeyboard.EventTracks` | hid/pico/src/ph_usb.c:111-148 | every press, release, clear and poll keeps: no key in two slots, only held keys shown, modifier bits exact, `sent` means the host has the current state, and all held keys shown if six slots were always enough |
| `UsbKeyboard.EveryRunTracks` | hid/pico/src/ph_usb.c:111-226 | over every run from power-on, whatever the bus accepts, slots, modifiers and the acknowledged report are true to the history |
| `UsbKeyboard.SentIffUpToDate` | hid/pico/src/ph_usb.c:207-226 | over every run a report is owed exactly as long as the bus has taken none since the last change |
| `UsbKeyboard.ShownIffNeverCrowded` | hid/pico/src/ph_usb.c:111-148 | over every run all held regular keys were in the slots at every moment since the last clear if and only if at most six of them were ever held together |
| `UsbKeyboard.HostSeesExactlyHeld` | hid/pico/src/ph_usb.c:207-226 | over every run, whenever `sent` is true, bit i of the modifier byte accepted last is set if and only if key 0xE0 + i is held; the keys are exactly the held ones if six slots were always enough, and are not with more than six held |
| `UsbKeyboard.HostSeesHeldIff` | hid/pico/src/ph_usb.c:111-226 | over every run an acknowledged report has exactly the held regular keys if and only if none of them has lost its slot since it was last pressed |
| `UsbKeyboard.SeventhKeyEvicts` | hid/pico/src/ph_usb.c:126-134 | the bound is sharp: a seventh key takes the slot of a key that is still held |
| `UsbKeyboard.EvictionOutlastsTheSeventhKey` | hid/pico/src/ph_usb.c:111-143 | a run from power-on in which, after a seventh key has been pressed and released, one of six held keys is missing from the accepted report |
| `UsbKeyboard.EvictedStaysHidden` | hid/pico/src/ph_usb.c:124-143 | an evicted key stays invisible until it is pressed again |
| `UsbKeyboard.UsbKbd.SyncReport` | hid/pico/src/ph_usb.c:207-226 | offers the current state unless it was acknowledged; a refused or suspended report stays owed |
| `UsbKeyboard.UsbKbd.SendKey` | hid/pico/src/ph_usb.c:111-148 | the in-place slots and modifier byte track the history extended by the event |
| `UsbKeyboard.UsbKbd.SendClear` | hid/pico/src/ph_usb.c:188-192 | clearing tracks the history extended by a clear |
| `UsbKeyboard.UsbKbd.CheckIface` | hid/pico/src/ph_usb.c:77-93 | the online flag falls only after more than 50 ms of uninterrupted offline samples, and coming back forces a report |
| `UsbKeyboard.UsbKbd.Poll` | hid/pico/src/ph_usb.c:95-98 | a poll keeps the report and the online flag true to their histories |
| `UsbKeyboard.LongOfflineMeans` | hid/pico/src/ph_usb.c:77-93 | on a clock that does not run backwards the online flag falls if and only if all samples over more than 50000 microseconds up to the last were offline |
| `EdidCea.BlocksRoundTrip` | kvmd/edid.py:59-69 | parsing the packed form of any list of valid blocks gives the list back |
| `EdidCea.DtdsRoundTrip` | kvmd/edid.py:257-262 | of whole descriptors the parser reads back all, less the last when just one byte follows it |
| `EdidCea.PackedLayout` | kvmd/edid.py:59-61 | a packed block is its tag in the upper three and its length in the lower five bits, and its data; blocks stand one behind the other |
| `EdidCea.ReplacedLayout` | kvmd/edid.py:266-281 | after the replacement byte 130 is the offset of the descriptors or zero, the blocks start at byte 132, the descriptors follow, and zeros go up to the checksum |
| `EdidCea.OffsetCases` | kvmd/edid.py:240-258 | a short image has no extension, offset 0 means nothing, and offsets 1 to 3 are refused |
| `EdidCea.CeaRoundTrip` | kvmd/edid.py:240-281 | for all valid blocks and whole descriptors that fit, parsing after replacing gives them back, less the last descriptor on an exact fit |
| `EdidCea.ReplaceCea` | kvmd/edid.py:266-281 | nothing outside byte 130 and bytes 132 to 254 is written |
| `EdidCea.RoundTripIff` | kvmd/edid.py:257-281 | the round trip is exact if and only if the payload is not 123 bytes with a descriptor in it |
| `EdidCea.ParsedIsPrintable` | kvmd/edid.py:240-264 | whatever the parser accepts has only whole descriptors, and so can be printed |
| `EdidFields.MfcIdSet` | kvmd/edid.py:131-150 | the manufacturer identifier set is read back, in upper case |
| `EdidFields.NumbersAreAt` | kvmd/edid.py:131-170 | the identifier is three groups of five bits with the first letter on top; product and serial have their low byte first |
| `EdidFields.TextIsAt` | kvmd/edid.py:193-207 | a text is the 13 bytes from the sixth on of the first of the four descriptors with the type, stripped, or an error if there is none |
| `EdidFields.StripMeans` | kvmd/edid.py:195 | stripping takes white space off both ends and nothing else |
| `EdidFields.TextIsWritten` | kvmd/edid.py:197-201 | a text is written as itself, a line feed and spaces, as far as 13 bytes go |
| `EdidFields.SerialSet` | kvmd/edid.py:164-177 | the 32-bit serial number set is read back, and product and manufacturer are unchanged |
| `EdidFields.OwnTextSet` | kvmd/edid.py:193-207 | a descriptor text set is read back, cut to 13 characters and stripped |
| `EdidFields.OtherTextUnmoved` | kvmd/edid.py:193-207 | setting one descriptor text leaves the other as it was |
| `EdidFields.AudioSet` | kvmd/edid.py:211-238 | after switching audio the state is as asked, other blocks and descriptors are kept in order up to the exact-fit loss, and no byte outside the payload, its offset and its flags has changed |
| `EdidFields.AudioIsAt` | kvmd/edid.py:211-238 | the audio is on if both kinds of data blocks are there and bit 6 of byte 131 is set; switching sets that bit and no other flag |
| `EdidFields.WithoutAudioIsFilter` | kvmd/edid.py:224 | only blocks of tags 1 and 4 are taken out, and the others keep their order |
| `EdidFields.AudioIsAppended` | kvmd/edid.py:225-227 | the two blocks appended, byte by byte |
| `EdidFields.EditIsUpdate` | kvmd/edid.py:139-238 | every setter that succeeds updates its own field of the abstract record and no other |
| `EdidFields.SucceedsIff` | kvmd/edid.py:139-281 | every setter succeeds if and only if its request is acceptable: numbers in range, three characters in upper case A to Z, a descriptor there and 13 encodable characters, or an extension that parses and stays within 123 bytes |
| `EdidFields.FailsWithReason` | kvmd/edid.py:139-281 | and otherwise it raises the error its request calls for |
| `EdidFields.ImageRefinesRecord` | kvmd/edid.py:131-238 | after any sequence of setters, failing ones included, all getters return what the acceptable edits, replayed on the record, say |
| `EdidFile.BlocksSumToZero` | kvmd/edid.py:124-127 | after updating checksums each 128-byte block sums to 0 modulo 256 |
| `EdidFile.HexRoundTrip` | kvmd/edid.py:95-117 | re-reading the hexadecimal file restores exactly the bytes written, unless some 127-byte payload sums to 0 modulo 256, and then it is rejected |
| `EdidFile.HexIsWritten` | kvmd/edid.py:109-115 | items are written with two upper-case hexadecimal digits, the high one first, and 256 as three |
| `EdidFile.HexIsRead` | kvmd/edid.py:101-104 | digits of either case are read, a lone one and a signed one too |
| `EdidFile.PairsAreRead` | kvmd/edid.py:101-104 | any digits, of whatever case, are read two by two, the high one first |
| `EdidFile.SpaceIsTakenOut` | kvmd/edid.py:100 | white space is taken out wherever it stands, and nothing else |
| `EdidFile.ConstructIff` | kvmd/edid.py:83-89 | accepted are 128 bytes, or 256 that announce one extension, of the right kind and version |
| `EdidFile.BinRoundTrip` | kvmd/edid.py:95-122 | the binary file can be written under the same condition, and reads back if it has the standard header |
| `EdidFile.EditsStayWellFormed` | kvmd/edid.py:83-89 | no setter spoils what the constructor demanded |
| `EdidSaving.LastItem` | kvmd/edid.py:63-69 | the parser's outcome depends on the last item only if walking the blocks by size reads it as data, and then only on whether it is a byte |
| `EdidSaving.SavingKeepsFieldsIff` | kvmd/edid.py:107-127 | on any image saving changes no field if and only if it does not turn a checksum that the blocks take for data from a byte into 256 or back |
| `EdidSaving.SessionSurvivesSaving` | kvmd/edid.py:95-238 | for any file that loads and any edits, failing ones included: the text saved loads again if and only if no checksum overflows, and then the fields are those of the first file with the accepted edits applied |
| `EdidExamples.SavedImageIsRejected` | kvmd/edid.py:95-127 | a valid binary file that, loaded and saved without any edit, is not read back as text and cannot be saved in binary form |
| `EdidExamples.AudioLosesDescriptor` | kvmd/edid.py:222-281 | an image on which switching the audio on succeeds with an exact fit and loses the last of six descriptors |
| `EdidExamples.SavingLosesAudio` | kvmd/edid.py:107-127 | an image with the audio on whose audio state cannot be read any more once it is saved |
| `EdidObject.Edid.UpdateChecksums` | kvmd/edid.py:124-127 | the summing loops leave every 128-byte block with a sum of 0 modulo 256 and a positive checksum item, and change no other item |
| `EdidObject.Edid.WriteHex` | kvmd/edid.py:107-117 | loading the text that the nested loops write gives back the image as it now stands, checksums included, or is rejected if a payload summed to 0 modulo 256 |
| `EdidObject.Edid.SetMfcId` | kvmd/edid.py:139-150 | the in-place setter is the specified function of the old bytes, error cases included |
| `EdidObject.Edid.SetProductId` | kvmd/edid.py:157-160 | the in-place setter is the specified function of the old bytes |
| `EdidObject.Edid.SetSerial` | kvmd/edid.py:172-177 | the in-place setter is the specified function of the old bytes |
| `EdidObject.Edid.FindDtdText` | kvmd/edid.py:203-207 | the search returns the first descriptor of the type |
| `EdidObject.Edid.SetDtdText` | kvmd/edid.py:197-201 | the in-place setter is the specified function of the old bytes |
| `EdidObject.Edid.GetDtdText` | kvmd/edid.py:193-195 | the getter reads the specified text |
| `EdidObject.Edid.ParseExtension` | kvmd/edid.py:240-264 | the parsing loops compute the specified blocks and descriptors |
| `EdidObject.Edid.ReplaceExtension` | kvmd/edid.py:266-281 | the writing loop stores the specified payload, and nothing when it does not fit |
| `EdidObject.Edid.ReadAudio` | kvmd/edid.py:211-220 | the loop over the blocks decides the specified audio state |
| `EdidObject.Edid.WriteAudio` | kvmd/edid.py:222-238 | the in-place setter is the specified function of the old bytes |
| `VncSender.EveryRunIsClean` | kvmd/apps/vnc/server.py:287-341 | over every run, the H.264 bytes sent since the last key frame are exactly a gap-free run of the frames taken, of one size, and a payload of more than one frame is at most 4194304 bytes |
| `VncSender.TakeKeepsInv` | kvmd/apps/vnc/server.py:291-311 | taking a frame, merging or replacing, keeps the stream invariant |
| `VncSender.QueueKeepsInv` | kvmd/apps/vnc/server.py:272-277 | queueing a frame, dropping the oldest or not, keeps the stream invariant |
| `VncSender.FlushKeepsInv` | kvmd/apps/vnc/server.py:313-341 | sending, refusing, resizing or skipping keeps the stream invariant |
| `VncSender.DeltasMerge` | kvmd/apps/vnc/server.py:291-311 | deltas of one stream waiting together become one payload with their bytes in order |
| `VncSender.GroupIsSent` | kvmd/apps/vnc/server.py:287-341 | a key frame and its deltas, waiting together, reach a capable client as one payload |
| `VncSender.FlushMeans` | kvmd/apps/vnc/server.py:313-341 | for every frame gathered and every client: a message if the size cannot be followed, else the new size and then the whole picture, or the video if it begins with a key frame; and exactly when the session is refused |
| `VncSender.LastPictureIsSent` | kvmd/apps/vnc/server.py:291-330 | of any frames that wait, of which the last is a picture, that one is sent, whole |
| `VncSchedules.PayloadIsWholeIff` | kvmd/apps/vnc/server.py:272-341 | over every schedule of queueing, taking and flushing: a payload just sent continues the source's H.264 stream without loss if and only if, since the key frame was taken, no frame found the queue full with bytes of that stream at its head; still pictures do not count |
| `VncSchedules.NeverFullMeansWhole` | kvmd/apps/vnc/server.py:272-341 | if no frame of a schedule ever finds the queue full, every H.264 payload sent in it is whole |
| `VncSchedules.HoledPayloadIsSent` | kvmd/apps/vnc/server.py:275-277 | a schedule, eleven deltas waiting when one more comes, whose last payload is sent with a hole in the stream |
| `VncSender.FbSender.QueueFrame` | kvmd/apps/vnc/server.py:272-277 | the queue operation is the model's step |
| `VncSender.FbSender.TakeFrame` | kvmd/apps/vnc/server.py:291-311 | one turn of the inner loop is the model's step, and stops on an empty queue |
| `VncSender.FbSender.SendRound` | kvmd/apps/vnc/server.py:290-341 | one round takes everything that waits, then sends |
| `VncSender.FbSender.FlushFrame` | kvmd/apps/vnc/server.py:313-341 | the sending part is the model's step |
| `YamlMerge.LeavesOfMerge` | kvmd/yamlconf/merger.py:52-58 | a leaf of the merged tree is a leaf of the upper layer, or a leaf of the lower at a path the upper does not cover |
| `YamlMerge.MergeIsIdempotent` | kvmd/yamlconf/merger.py:52-58 | merging the same layer twice is merging it once |
| `YamlMerge.HidesIff` | kvmd/yamlconf/merger.py:52-58 | a layer leaves nothing of the one below if and only if it has all its keys, recursively |
| `YamlMerge.MergeIsAssociativeIff` | kvmd/yamlconf/merger.py:52-58 | three layers merge alike in both groupings if and only if nowhere a plain middle value stands between two dictionaries of which the upper does not hide the lower |
| `YamlMerge.GroupingMatters` | kvmd/yamlconf/merger.py:52-58 | a concrete case in which the grouping matters |
| `YamlInPlace.Mapping.MergeKey` | kvmd/yamlconf/merger.py:53-58 | one turn of the loop merges or replaces the value under its key, grafting the source's own object, and touches nothing outside |
| `YamlInPlace.Mapping.MergeFrom` | kvmd/yamlconf/merger.py:52-58 | merging dictionaries in place makes the destination the merge of the two values and leaves the source as it was, on any two disjoint trees |
| `YamlInPlace.MergeInto` | kvmd/yamlconf/merger.py:30-43 | no destination is an error; no or an empty source changes nothing; else the destination becomes the merge |
| `YamlConfig.MakeAgain` | kvmd/yamlconf/__init__.py:119-170 | reading again, with the defaults the first reading overwrote, gives the same configuration or failure and the same defaults |
| `YamlConfig.OptionIsRead` | kvmd/yamlconf/__init__.py:139-157 | an option takes the upper value, else the lower unless it merely equals the default, else the default; null and empty values are replaced as the option says, and all else is converted or blamed |
| `YamlConfig.LayeredIsMerged` | kvmd/yamlconf/__init__.py:139-170 | reading two layers is reading their merge over nothing, the failure's place and reason included, unless a plain lower value stands under an upper section or an option disagrees |
| `YamlConfig.LayeredIsMergedIff` | kvmd/yamlconf/__init__.py:139-170 | where sections are dictionaries, the two readings agree under every conversion if and only if no option has unhidden dictionaries in both layers, or a lower value that compares equal to the default without being it |
| `YamlConfig.PlainUnderSection` | kvmd/yamlconf/__init__.py:126-129 | a plain lower value under an upper section is an error in the layered reading and unseen in the merged one |
| `YamlConfig.FlagHidesBehindNumber` | kvmd/yamlconf/__init__.py:142-155 | a lower value of true under a default of 1, with any conversion that takes no flags: the layered reading yields 1, and the merged one fails at the flag |
| `YamlConfig.ReadOption` | kvmd/yamlconf/__init__.py:140-157 | reading an option overwrites its default and returns its value as specified |
| `YamlConfig.ReadNode` | kvmd/yamlconf/__init__.py:139-169 | reading one entry changes the defaults of its own options only |
| `YamlConfig.MakeConfig` | kvmd/yamlconf/__init__.py:119-170 | the recursive loop over option objects computes the specified result and leaves the specified defaults, also when it fails half-way |
| `AuthSessions.MakeExpireTs` | kvmd/apps/kvmd/auth.py:190-209 | the deadline is the clock plus the smaller of the two limits that are set, and none if neither is |
| `AuthSessions.StepKeepsAgreement` | kvmd/apps/kvmd/auth.py:160-280 | every login, logout, check, open and close keeps the sessions and websockets in agreement with the history |
| `AuthSessions.EveryHistory` | kvmd/apps/kvmd/auth.py:160-280 | over every history the sessions are exactly the live tokens, each with its user, the number of its registered websockets and the deadline its last release calls for |
| `AuthSessions.WithoutTakesOut` | kvmd/htserver.py:487-491 | removing a websocket takes out just its first entry and keeps the order of the others |
| `AuthSessions.RegisteredIffOpen` | kvmd/htserver.py:482-491 | over every history a connection is registered, and then once, if and only if its last event is that it was opened |
| `AuthSessions.ServerKnowsWhoIsThere` | kvmd/htserver.py:482-491 | and so it is in the server's list, whatever else has happened |
| `AuthSessions.CheckAnswersTheHistory` | kvmd/apps/kvmd/auth.py:241-257 | a check answers exactly what the history entitles the token to |
| `AuthSessions.HeldSessionsDoNotExpire` | kvmd/apps/kvmd/auth.py:265-280 | with extending on, `ws_started` is the number of registered websockets with the token, and while it is positive the session is accepted at any time |
| `AuthSessions.ReleasedSessionsExpire` | kvmd/apps/kvmd/auth.py:190-257 | without a websocket a session is accepted if and only if neither limit has passed since the login or the last close |
| `AuthSessions.LogoutIsExact` | kvmd/apps/kvmd/auth.py:230-239 | a logout removes all sessions of the token's user and changes no other |
| `AuthSessions.EndedStaysEnded` | kvmd/apps/kvmd/auth.py:230-257 | a token that has ended is never live again, whatever follows |
| `AuthSessions.RejectedStaysRejected` | kvmd/apps/kvmd/auth.py:241-280 | a token once rejected is rejected for good, whatever websockets come later |
| `AuthSessions.AuthManager.MakeNewToken` | kvmd/apps/kvmd/auth.py:183-188 | the first of ten draws that names no session, or none if all do |
| `AuthSessions.AuthManager.Login` | kvmd/apps/kvmd/auth.py:160-181 | an authorized login adds one session under a new token; otherwise nothing changes |
| `AuthSessions.AuthManager.Logout` | kvmd/apps/kvmd/auth.py:230-239 | the deleting loop leaves exactly the sessions of other users |
| `AuthSessions.AuthManager.Check` | kvmd/apps/kvmd/auth.py:241-257 | returns the user or deletes the expired session, as specified |
| `AuthSessions.AuthManager.RenewWsSession` | kvmd/apps/kvmd/auth.py:265-280 | adjusts counter and deadline as specified, only if extending is on |
| `AuthSessions.HttpServer.AddWs` | kvmd/htserver.py:482-485 | registering a websocket is the model's open step |
| `AuthSessions.HttpServer.RemoveWs` | kvmd/htserver.py:487-491 | removing is the model's close step, and nothing for an unregistered websocket |
| `AuthSessions.HttpServer.CloseAll` | kvmd/htserver.py:469-477 | closing all is closing each in order of registration, and leaves none |
| `NbdController.StepKeepsInv` | kvmd/nbd/controller.py:113-178 | any step of any bind or of the poller keeps the controller consistent with what was bound and reported |
| `NbdController.EveryInterleaving` | kvmd/nbd/controller.py:113-178 | in every interleaving the events are, process by process in bind order, one starting, any number of running, and one stopped with the first stop reported; and no assertion fails |
| `NbdController.BindsAreAnnouncedInOrder` | kvmd/nbd/controller.py:113-159 | every bind has exactly one starting event, in bind order, and one notification is queued exactly while the last is not announced |
| `NbdController.QuietMeansComplete` | kvmd/nbd/controller.py:155-178 | when the poller waits and nothing is queued, every process bound has been started and stopped |
| `NbdController.LockAndProcFollow` | kvmd/nbd/controller.py:113-124 | in every interleaving the lock is held exactly while the last step of a bind was its entry, and a process is known exactly from its bind to its end |
| `NbdController.BindMayEnterIff` | kvmd/nbd/controller.py:113-119 | a bind can enter if and only if no other is going on and no process is bound; after a failed one the next can |
| `NbdController.SomethingIsPossible` | kvmd/nbd/controller.py:113-178 | a bind that goes on can be finished either way, and the poller has a step to make unless every process bound has been started and stopped |
| `NbdController.Controller.BindEnter` | kvmd/nbd/controller.py:114-117 | a bind enters exactly when the device is ready and nothing is bound |
| `NbdController.Controller.BindFinish` | kvmd/nbd/controller.py:119-124 | the rest of a bind is the model's step |
| `NbdController.Controller.Wake` | kvmd/nbd/controller.py:157-159 | the poller drains all notifications and announces the process, as the model's step |
| `NbdController.Controller.OnReport` | kvmd/nbd/controller.py:163-168 | a report is shown, or kept if it is the first stop, as the model's step |
| `NbdController.Controller.OnEnd` | kvmd/nbd/controller.py:173-174 | the end of a process is the model's step |
| `NbdController.Controller.OnDisconnected` | kvmd/nbd/controller.py:175-178 | the stopped event carries the first stop, or an unknown one |
| `Keysym.ReadKeyboardLayout` | kvmd/keyboard/keysym.py:118-161 | the layout has a key for a symbol if and only if some line says so, upper-case additions included, in the order of the lines |
| `Keysym.EntriesAreSaid` | kvmd/keyboard/keysym.py:128-161 | the entries of a line are its symbol and key with the modifiers named among the further words, and for addupper the upper-case symbol with SHIFT alone |
| `Keysym.KeysAreSaid` | kvmd/keyboard/keysym.py:118-161 | the keys of a symbol are exactly those some line says, and later lines only add behind them |
| `Keysym.CandidatesAre` | kvmd/keyboard/keysym.py:59-74 | offered are exactly the keys with a kernel code, with the modifiers given, that are not themselves one of them |
| `Keysym.PickMeans` | kvmd/keyboard/printer.py:88-91 | the choice is one that needs no CTRL, and all before it do |
| `Keysym.FirstsPickFirst` | kvmd/keyboard/keysym.py:75-78 | keeping the first key for each modifier combination does not change the first that needs no CTRL |
| `Keysym.FirstsHasAll` | kvmd/keyboard/keysym.py:75-78 | every modifier combination offered is kept |
| `Keysym.FirstsAreFirst` | kvmd/keyboard/keysym.py:75-78 | what is kept is exactly, of each combination of modifiers, the first key |
| `Keysym.BuildSymmap` | kvmd/keyboard/keysym.py:45-79 | for every symbol the map has the file's usable keys, then the built-in ones, the first for each modifier combination |
| `Keysym.LoadSymmap` | kvmd/keyboard/keysym.py:45-161 | the same from the lines of the file |
| `Keysym.SymmapTypesTheFirst` | kvmd/keyboard/keysym.py:49-79 | a symbol is typed with the first usable key of the file that needs no CTRL, else of the built-in table |
| `TextPrinter.LazyTypesNaively` | kvmd/keyboard/printer.py:60-119 | replayed from a released keyboard, the events type each choice once, in order, with exactly its modifiers held when its key goes down, and leave nothing held, if no choice is one of its own modifiers |
| `TextPrinter.LazyTypesNaivelyIff` | kvmd/keyboard/printer.py:60-119 | for any choices at all that holds if and only if none that is its own modifier is followed at once by one that needs this modifier; and no two ordinary keys are ever down together |
| `TextPrinter.FlagsAreTrueIff` | kvmd/keyboard/printer.py:93-114 | for any choices the two flags say what is held after every number of them if and only if none is its own modifier |
| `TextPrinter.OwnModifierSpoils` | kvmd/keyboard/printer.py:98-113 | SHIFT with its own key and then SHIFT with a letter: the letter is typed without SHIFT |
| `TextPrinter.Finished` | kvmd/keyboard/printer.py:116-119 | whatever the choices, the final releases leave nothing held and type nothing |
| `TextPrinter.OneAtATimeMeans` | kvmd/keyboard/printer.py:93-114 | at every prefix of the events at most one ordinary key is down |
| `TextPrinter.EmittedSoFar` | kvmd/keyboard/printer.py:93-114 | after any number of any choices nothing is held that the flags do not say, and there has been one stroke for each |
| `TextPrinter.TextToEvdevKeys` | kvmd/keyboard/printer.py:60-119 | the generator yields exactly the events of the text's choices, replacements and skipped characters included |
| `TextPrinter.PlainerMeans` | kvmd/keyboard/printer.py:79-86 | typographic quotes and the short dash become plain ones, the long dash is dropped, all else is typed as it is |
| `LayoutTyping.PicksAreMeant` | kvmd/keyboard/printer.py:69-95 | with a loaded symbol map each character is given the first usable entry of the layout file, else of the built-in table, and untypable ones are left out |
| `LayoutTyping.MeantIsNotOwn` | kvmd/keyboard/keysym.py:62-68 | whatever the layout, the built-in table and the text, no choice made is one of its own modifiers |
| `LayoutTyping.PrintText` | kvmd/apps/kvmd/api/hid.py:136-154 | for every layout file and every text the receiving keyboard is typed exactly the choices meant, each with exactly its modifiers held, never with two ordinary keys down, and nothing stays held |
| `MagicHandler.ChainIsLongest` | kvmd/keyboard/magic.py:52-80 | the taps and digits kept are those of the longest unbroken chain |
| `MagicHandler.RunFollows` | kvmd/keyboard/magic.py:52-80 | counter, time and digits are at every moment those of that chain |
| `MagicHandler.HandlersRunIff` | kvmd/keyboard/magic.py:52-82 | a handler runs if and only if its key comes after an unbroken chain with two Alt taps, each step within two seconds; the digits passed are the chain's, in order, 0 to 7; all else is proxied |
| `MagicHandler.ProxyHoldsOnlyWhatIsDown` | kvmd/keyboard/magic.py:58-82 | the keys the proxy sees down are always a subset of those really down |
| `MagicHandler.Handler.HandleKey` | kvmd/keyboard/magic.py:52-82 | the method is the specified step |
| `LocalHid.SplitConserves` | kvmd/apps/localhid/hid.py:132-142 | the pieces sum to the whole distance on both axes, fit a signed byte, and none is empty |
| `LocalHid.SplittedDeltas` | kvmd/apps/localhid/hid.py:132-142 | the loop terminates, counters below zero or not, and yields as many pieces as the longer axis needs at 127 a piece |
| `LocalHid.FlushConserves` | kvmd/apps/localhid/hid.py:115-123 | a flush queues exactly what was pending, in that many pieces |
| `LocalHid.EveryStreamConserves` | kvmd/apps/localhid/hid.py:91-130 | over every stream, queued plus pending motion is the travel while grabbed, per axis and for the wheel; every piece is within 127; keys and buttons come through as they should |
| `LocalHid.ReportedMeansQueued` | kvmd/apps/localhid/hid.py:115-123 | after a report of a grabbed device all travel so far is queued |
| `LocalHid.KeysComeThroughIff` | kvmd/apps/localhid/hid.py:98-130 | over every stream all keys and buttons that should come through do if and only if the device has sync reports or none of them comes while it is grabbed |
| `LocalHid.Hid.OnEvent` | kvmd/apps/localhid/hid.py:98-130 | one turn of the read loop is the specified step |
| `LocalHid.Hid.PollToQueue` | kvmd/apps/localhid/hid.py:91-130 | the whole read loop, with grabs and releases between events, queues all travel and relays the keys and buttons in order |
| `GpioPoller.OrIsRequested` | kvmd/aiotools.py:260-274 | lumped notifications ask for the full state if and only if one of them does |
| `GpioPoller.AioNotifier.Wait` | kvmd/aiotools.py:260-274 | waiting drains the queue and returns the OR of all of it |
| `GpioPoller.ClientHoldsLastPolled` | kvmd/apps/kvmd/ugpio.py:272-296 | over every run a client that replaces on full and overlays partial messages holds exactly the state last read |
| `GpioPoller.FullIffRequested` | kvmd/apps/kvmd/ugpio.py:279-283 | the next message is full if and only if the full state was asked for since the last reading |
| `GpioPoller.PartialHoldsWhatChanged` | kvmd/apps/kvmd/ugpio.py:284-296 | when nothing full is asked for, there is a partial message if and only if some channel differs from the last reading, and it holds just those with their new states |
| `GpioPoller.LateClientCatchesUp` | kvmd/apps/kvmd/ugpio.py:269-296 | a client that joins at any time is right from the first full message on |
| `GpioPoller.UserGpio.PollOnce` | kvmd/apps/kvmd/ugpio.py:278-296 | one turn of the poll loop is the specified step |
| `GpioPoller.UserGpio.PollState` | kvmd/apps/kvmd/ugpio.py:269-296 | over any possible run of notifications and readings the objects end as specified, and a client of all messages holds the state last read |
| `GpioPoller.Compare` | kvmd/apps/kvmd/ugpio.py:287-292 | the loop gathers exactly the channels that differ |
| `Stun.TransXorUndoes` | kvmd/apps/janus/stun.py:247-251 | hiding bytes under the identifier twice gives them back |
| `Stun.AddressRoundTrip` | kvmd/apps/janus/stun.py:238-245 | an encoded address, plain or hidden, of either family, is read back |
| `Stun.AddressMeans` | kvmd/apps/janus/stun.py:238-251 | byte by byte: family, port with the high byte first, and four or sixteen octets, the last two under the identifier if there is one |
| `Stun.ParseAttributes` | kvmd/apps/janus/stun.py:193-209 | the loop terminates and computes the specified fields or failure |
| `Stun.AttributesRoundTrip` | kvmd/apps/janus/stun.py:193-209 | for any list of attributes with lengths that are multiples of four, each field gets the last address given for it |
| `Stun.ReadsBackIffAligned` | kvmd/apps/janus/stun.py:207-208 | the messages of a list's first attributes all read back if and only if every length is a multiple of four: padding is not skipped |
| `Stun.PayloadIff` | kvmd/apps/janus/stun.py:211-236 | a datagram is taken for the answer if and only if it is a binding response under the identifier of the request; its payload is what follows, as far as its length goes |
| `Stun.MessageRoundTrip` | kvmd/apps/janus/stun.py:211-236 | a whole answer, with header and trailing bytes, gives the addresses in it |

## Left out

- Hardware and foreign code: SPI and UART registers, the USB stack, PS/2, GPIO drivers, ioctl and kernel behaviour, libxkbcommon and libevdev appear as arbitrary inputs or function parameters.
- Network, HTTP and websocket traffic, asyncio and multiprocessing: each stretch of code between two suspension points is one atomic step, and the NBD process is an arbitrary sequence of reports.
- Passwords, one-time codes and the random source: authorization is an input, and a new token is assumed never to have been used before.
- Plugins, switch, RFB encodings, OTG, Janus and ustreamer runners, OCR, OLED and the command-line tools: no model.
- The finite tables of key codes and keysyms are parameters; checking them is a case enumeration.
- `hid/arduino/src/proto.h` computes its CRC with the same text as the Pico firmware, and is not modelled a second time; its `merge8_int` is not used with a sign here.
- `ph_usb.c`: the mouse reports, the wrap-around of the 64-bit microsecond clock, and the spacing of polls to one per millisecond.
- UsbKeyboard.HostSeesExactlyHeld: states nothing about the time it takes until the host's USB stack accepts a report, which is the host's choice.
- `main.c`: the reboot after a reset request; the model stops polling, as the loop does.
- HidDamage.DamagedRequestIsInert: a burst is counted in the order in which the register takes the bits; on a line that sends the most significant bit of a byte first, bursts over three bytes may differ, while those over two neighbouring bytes are settled either way.
- HidHost.Line.ProcessRequest: log messages, pauses between attempts, the online flag, and the mode that talks to no device are left out; a response that comes only after the next request has been sent is not followed.
- SpiFirmware.Firmware.Turn: the USB and PS/2 tasks that the loop calls in the same turn touch none of its state and are not followed; the status they feed is an input.
- SpiLink.EveryInterleavingIsCorrect: the interrupt handler is atomic with respect to the main loop, which is so on the single core that runs both; its loops over the FIFOs may take any number of bytes.
- EdidFields.ImageRefinesRecord: the cp437 code is any one-byte code that decodes what it encodes, and upper-casing any map from characters to non-empty strings; the Unicode tables are not part of this model.
- EdidFile.HexRoundTrip: a file with bytes outside ASCII, whose digits and spaces Python would also accept, is treated as malformed; files the program writes have none.
- VncSender.EveryRunIsClean: a send that raises ends the session and is not followed; frames in which the two formats are anything but JPEG and H.264 raise before they are sent.
- YamlInPlace.Mapping.MergeFrom: destination and source are disjoint trees; what a later merge into the destination does to parts shared with the source is not followed.
- YamlConfig.LayeredIsMerged: floating-point values and values that are not YAML are left out of the tree; unpacking and hints of options do not change what is read.
- YamlConfig.MakeConfig: no option object stands in two places of the scheme; the schemes of the program build each option anew.
- AuthSessions.EveryHistory: clock readings are arbitrary numbers; a login that is refused is no event.
- NbdController.EveryInterleaving: a process object whose construction fails after the notification is not followed, nor a consumer that abandons the event generator.
- Keysym.BuildSymmap: the order of symbols in the file does not matter to the result and is left open; log messages are left out.
- LayoutTyping.PrintText: the cache of loaded maps, delays between keys, and the checks of the request's parameters are left out.
- MagicHandler.HandlersRunIff: events are handled one after another, as both callers do; times are real numbers without rounding.
- GpioPoller.ClientHoldsLastPolled: the channels are fixed while the program runs, and a reading of all of them is one value.
- Stun.MessageRoundTrip: addresses are octets, not their printed form; the retry loop and the classification of NATs are left out.
