# Body camera: verified model

A Dafny model of the body camera's video path and of the driver code it rests on, with
proofs. A USB camera delivers frames to a microcontroller; the microcontroller cuts each
frame into packets and sends them over WiFi; a base station collects the packets, overlays
them into frames and takes JPEG images out of them.

| file | what it models |
|---|---|
| `Bytes.dfy`, `Packets.dfy` | the packet format and parser |
| `Overlay.dfy` | reassembling a frame from packets |
| `Jpeg.dfy` | the JPEG scanner and the single-image extraction |
| `Examine.dfy`, `Client.dfy`, `Grouping.dfy` | offline parsing, the live listener, and how they relate |
| `Sender.dfy` | the camera's packetiser and the replay of a recorded stream |
| `UvcPayload.dfy`, `FrameSlot.dfy` | the camera driver's payload state machine and the one-slot frame hand-off |
| `HandOff.dfy`, `FrameFate.dfy`, `FrameIDs.dfy` | what leaves the slot over every interleaving, which frames get through, and under which IDs |
| `Pipeline.dfy` | the whole chain, from USB packets to the station's frames |
| `StreamChoice.dfy` | what the driver keeps of a USB configuration |
| `UvcDescriptors.dfy`, `UvcMeaning.dfy`, `UvcConfig.dfy`, `UvcExample.dfy` | what a configuration presents, what that means for its descriptors, the walk over it, and an example |
| `UvcEncode.dfy`, `UvcCameras.dfy` | cameras field by field, the bytes of their configurations, and what the walk reads back |
| `Can.dfy`, `Flash.dfy`, `Eeprom.dfy` | three peripheral drivers |

Code that updates state is modelled by methods with loops over class fields and arrays; each
is proved against a function, and the properties are proved about that function. Integer
widths are explicit: the 16-bit raw packet length, the 32-bit end of a packet in the
listener, the 32-bit unsigned loop bound of the packetiser, the 16-bit cursor in the
streaming header. Sockets, polling and the camera's answers are inputs; callbacks, datagrams
and frames are recorded as traces. Endless loops appear as a result value (`spins`,
`hangs`, `Fault`), accesses outside a buffer as `None`, `OutOfBounds`, `Overread` or `fault`.

Where the code differs from what its comments or names suggest, the model follows the code:

- A packet of 65528 bytes has raw length 0 in 16 bits, and the offline parser then reads it
  for ever (`SpinsExactly`, `SpinningFile`); raw lengths are true up to 65527 bytes (`RawLengthExact`).
- The packetiser sends one packet less than fits and no partial packet, so every frame loses
  its last 248 to 495 bytes (`TailLost`), and a buffer of fewer than 248 bytes makes it run
  off the end (`SendUSBData`). Any frame can come to that: a consume step that takes one buffer
  in the middle of the next frame leaves only the rest of that frame (`TornFrameRunsOff`);
  `WholeExactly` and `SenderFaultsExactly` say when.
- The station's conversion of an uncompressed frame reads 38400 bytes whatever has arrived. A
  frame of that size arrives as 37944 bytes; only from 38688 bytes on is enough sent
  (`ShownExactly`).
- A frame that ends while another is pending destroys the pending one (`PendingFrameLost`),
  and a frame of 128 KiB or more destroys itself (`WholeFrameExactly`); `SentWholeExactly` says
  which frames get through.
- The driver skips one payload header per frame where the camera sends one per packet, so a
  frame in several packets contains the later headers and closes early (`FirstFrameExactly`,
  `SplitFrame`).
- The listener keeps up only with streams that complete at most one packet per wake-up
  (`UpToDateExactly`, `TwoAtOnce`), and stops for ever on a length of 0 (`StopsExactly`).
- Two different frames can be sent under one ID (`StaleID`); `ConsecutiveIDsExactly` says when.
- A packet that is a single 0 hangs the driver (`ZeroHangs`).
- The highest bit rate on offer is not always chosen: the order of descriptors decides
  (`BestOfAllExactly`, `SlowerKept`).
- The alternate setting selected is the last one of the configuration, whichever setting the
  pipe's endpoint belongs to (`SettingHoldsPipeExactly`, `SmallerLast`).
- The bit rate set can exceed the request by the fraction that integer division drops
  (`ExceedsExactly`, `TooFast`).
- `CANBitRateSet` accepts ratios whose timing its registers cannot hold (`ReadBackExact`,
  `CutOffSet`), and a result of 0 does not always mean that nothing changed
  (`ZeroRateExactly`, `ZeroRateSet`).
- The end of a JPEG frame is never sent; the station then shows the part that was sent less
  its last byte (`SentJpegCut`).
- The extraction of assembleFrame takes a stray EOI for an image (`ExtractedIsFirstImage`,
  `StrayEnd`).
- `view.cpp` stores the end-of-file value as one more byte; it is harmless
  (`EndByteHarmless`).

## Model

| member | source | states |
|---|---|---|
| `Packets.Packet.Parse` | BaseStation/pkt.cpp:29-58 | the parse loop fills the fields with exactly the packet `ParsePacket` finds, or reports which of the three checks failed and leaves the data alone |
| `Packets.ParseExact` | BaseStation/pkt.hpp:41-50 | a buffer parses to a packet if and only if it begins with that packet's non-empty encoding: round trip and soundness in one |
| `Packets.WireLayout` | BaseStation/pkt.hpp:41-50 | where each field lies on the wire: length, ID, type, offset, little endian, then the data |
| `Packets.ParseStable` | BaseStation/pkt.cpp:29-58 | bytes that arrive later change neither a recognised packet nor a zero-length stop |
| `Packets.StuckExactly` | BaseStation/pkt.cpp:43-46 | whatever arrives later, the bytes held never parse if and only if they begin with a length of 0 |
| `Packets.EncodeAllInjective` | BaseStation/pkt.hpp:41-50 | a stream of packets can be cut into packets in one way only |
| `Packets.RawLengthExact` | BaseStation/pkt.cpp:60-63 | the 16-bit raw length is the packet's real size if and only if it carries at most 65527 bytes |
| `Overlay.Reassemble` | BaseStation/client.cpp:240-253 | the overlay loop stays in bounds if and only if no packet's end wraps in 32 bits, and then gives the packets laid over each other in order |
| `Overlay.OverlayLength` | BaseStation/client.cpp:240-253 | the buffer ends exactly where the furthest packet ends |
| `Overlay.OverlayBytes` | BaseStation/client.cpp:240-253 | each byte is that of the last packet covering it, and 0 where no packet does |
| `Overlay.OverlayOrderFree` | BaseStation/client.cpp:240-253 | packets that agree where they overlap give the same buffer in any order and with any repetition |
| `Overlay.PartialFrame` | BaseStation/client.cpp:240-253 | whatever subset of a frame's packets arrives, the buffer equals the frame on every byte received and is 0 elsewhere |
| `Overlay.WholeFrame` | BaseStation/client.cpp:240-253 | chunks that cover a frame give the frame back |
| `Jpeg.Scan` | BaseStation/view.cpp:42-74 | the scanner loop shows exactly the images from each SOI through the next EOI, on every nonempty input |
| `Jpeg.View` | BaseStation/view.cpp:35-74 | reading a file to its end and scanning shows the images of the file itself |
| `Jpeg.EndByteHarmless` | BaseStation/view.cpp:35-38 | the stored end-of-file value neither adds nor changes an image |
| `Jpeg.ScanExact` | BaseStation/view.cpp:42-74 | the scanner yields given frames if and only if the stream is those frames in order, separated by stretches without SOI, before a tail with no complete image |
| `Jpeg.Extract` | BaseStation/client.cpp:255-275 | the extraction loop: first SOI to first EOI; a bare EOI if that comes first; all but the last byte if there is no EOI; nothing without either |
| `Jpeg.ExtractedByPositions` | BaseStation/client.cpp:255-275 | by the positions s of the first SOI and e of the first EOI: the slice from s through the EOI, the slice from s to the last byte but one, the bare EOI, or nothing |
| `Jpeg.CutFrameExtracted` | BaseStation/client.cpp:255-275 | of the beginning of a frame, its EOI missing, all but the last byte is extracted |
| `Jpeg.ExtractedIsFirstImage` | BaseStation/client.cpp:255-275 | on a buffer holding an image, extraction and scanner agree on the first one if and only if no EOI precedes the first SOI |
| `Jpeg.StrayEnd` | BaseStation/client.cpp:255-275 | an EOI before an image: the extraction yields the EOI alone, the scanner the image |
| `Examine.ParseAll` | BaseStation/examine.cpp:73-97 | the offline parse loop returns the packets, the bytes it stops at, and whether it reads for ever |
| `Examine.SpinsExactly` | BaseStation/examine.cpp:73-97 | the loop never ends if and only if some number of its rounds leads to a packet of 65528 bytes |
| `Examine.SpinningFile` | BaseStation/examine.cpp:73-97 | any file that is one packet of 65528 bytes makes it spin |
| `Examine.BatchIterates` | BaseStation/examine.cpp:73-97 | a parse that ends is a run of packet reads that stops only where no packet can be read |
| `Examine.IteratesConserve` | BaseStation/examine.cpp:73-97 | any number of rounds of the loop loses and invents no byte |
| `Examine.ReassembleID` | BaseStation/examine.cpp:118-144 | the per-ID loop lays over each other exactly the packets of that ID |
| `Client.AssembleFrame` | BaseStation/client.cpp:233-300 | a frame's kind, bytes or image, a write outside the buffer, or the conversion's read past its end, as a function of its packets |
| `Client.FrameByType` | BaseStation/client.cpp:233-300 | by packet type, 4, 2 or another, when all packets fit: the buffer, if it has the 38400 bytes that the conversion reads, the image by its marker positions, or nothing |
| `Client.Listener.OnDatagram` | BaseStation/client.cpp:96-143 | one UDP wake-up: at most 1024 bytes appended, at most one packet accepted, a group flushed on a new ID |
| `Client.ReceivedExactly` | BaseStation/client.cpp:96-143 | a packet in one datagram is accepted if and only if it has at most 1024 bytes; of a longer one the first 1024 are held |
| `Client.Listener.OnWakeup` | BaseStation/client-tcp.cpp:121-182 | one TCP wake-up: every read appended, then at most one packet accepted |
| `Client.StreamingRefinesBatch` | BaseStation/client.cpp:103-143 | for any cutting of a stream into wake-ups, the accepted packets are what as many rounds of the offline loop read from all bytes received, and the bytes held are what they leave |
| `Client.BytesConserved` | BaseStation/client.cpp:103-143 | received bytes equal the bytes the accepted packets took followed by those held; the packets' full encodings when none exceeds 65527 bytes |
| `Client.AcceptedPrefix` | BaseStation/client.cpp:103-143 | the accepted packets are a prefix of the offline parse, and the held bytes contain the rest of it |
| `Client.BacklogLaw` | BaseStation/client.cpp:108-140 | after each wake-up the backlog is what was waiting less one: the listener is up to date if and only if at most one packet was waiting |
| `Client.UpToDateExactly` | BaseStation/client.cpp:96-143 | when the offline parse of the stream ends, the listener is up to date after every wake-up if and only if no wake-up completes more than one packet of the stream |
| `Client.NeverFallsBehind` | BaseStation/client.cpp:96-143 | when no wake-up brings more bytes than the stream's smallest packet, the listener has always accepted exactly the offline parse of the bytes received |
| `Client.TwoAtOnce` | BaseStation/client.cpp:96-143 | two packets in one datagram leave the second waiting |
| `Client.StopsExactly` | BaseStation/client.cpp:103-143 | the listener accepts nothing any more, whatever it receives, if and only if the bytes it holds begin with a length of 0 |
| `Grouping.GroupsAreRuns` | BaseStation/client.cpp:115-126 | in every reachable state the held packets share one ID, and flushed groups plus held packets cut all accepted packets into maximal runs of equal ID |
| `Grouping.RunSplitUnique` | BaseStation/client.cpp:115-126 | there is only one such cut |
| `Grouping.LiveAndOfflineAgree` | BaseStation/examine.cpp:125-144 | an ID that occurs in one group only: the offline parse finds the group's packets and then those still waiting in the listener's data; when none waits, the listener's frame is the one the offline buffer gives if and only if no packet of the group ends beyond 32 bits |
| `Sender.SendUSBData` | cc3000_basic_wifi_application/cc3000_basic_wifi_application.c:622-669 | the packets sent, byte for byte: one datagram for each chunk of the frame; the loop runs off its buffer if and only if the frame has fewer than 248 bytes |
| `Sender.TailLost` | cc3000_basic_wifi_application/cc3000_basic_wifi_application.c:645-664 | every frame loses its last 248 to 495 bytes |
| `Sender.SentFrameReassembles` | cc3000_basic_wifi_application/cc3000_basic_wifi_application.c:645-664 | any arrival of a frame's packets, reordered and repeated, reassembles to the part that was sent |
| `Sender.Replay` | BaseStation/send.cpp:64-75 | a file goes out in full 128-byte slices and one shorter, possibly empty, last slice |
| `Sender.SlicesFull` | BaseStation/send.cpp:64-75 | all slices but the last have 128 bytes, the last what is left |
| `Sender.SlicesWhole` | BaseStation/send.cpp:64-75 | the slices make up the file and fit the receive buffer |
| `Sender.ReplayMatchesExamine` | BaseStation/send.cpp:64-75 | replaying a file whose packets have at least 128 bytes makes the listener accept exactly the packets examined offline |
| `UvcPayload.Driver.ParseReceivedPacket` | cc3000_basic_wifi_application/uvc.c:533-575 | the packet loop makes the callbacks, and leaves the static variables, of `Process` |
| `UvcPayload.HangsExactly` | cc3000_basic_wifi_application/uvc.c:542-557 | a packet hangs the driver if and only if its first byte is 0 and the loop reaches it with no frame open |
| `UvcPayload.ZeroHangs` | cc3000_basic_wifi_application/uvc.c:542-557 | a packet that is a single 0 does so on a driver at rest |
| `UvcPayload.PayloadConserved` | cc3000_basic_wifi_application/uvc.c:533-575 | over any packets and frame size, every byte is skipped as header or handed on, once and in order |
| `UvcPayload.PayloadFramed` | cc3000_basic_wifi_application/uvc.c:533-575 | over any packets with nonzero header lengths: no hang, a (start data+ end)* trace with at most one open frame, closed frames of exactly the frame size, and `processed` 0 or between header length and header length plus frame size |
| `UvcPayload.FirstFrameExactly` | cc3000_basic_wifi_application/uvc.c:533-575 | the first frame of a stream is the first packet without its header followed by the later packets whole, headers included, up to the frame size |
| `UvcPayload.SplitFrame` | cc3000_basic_wifi_application/uvc.c:544-548 | a frame that comes in two packets has the second header in its middle and lacks its last byte |
| `FrameSlot.UsbBuffer.StartCb` | cc3000_basic_wifi_application/cc3000_basic_wifi_application.c:861-886 | a new ID unless a buffer is pending |
| `FrameSlot.UsbBuffer.DataCb` | cc3000_basic_wifi_application/cc3000_basic_wifi_application.c:890-915 | bytes appended up to 128 KiB, where the slot becomes pending; a pending buffer is left alone; a pending and a partly filled buffer never coexist |
| `FrameSlot.UsbBuffer.EndCb` | cc3000_basic_wifi_application/cc3000_basic_wifi_application.c:917-921 | the collected bytes become pending, or a pending buffer is emptied |
| `FrameSlot.UsbBuffer.Consume` | cc3000_basic_wifi_application/cc3000_basic_wifi_application.c:1042-1050 | a pending buffer is sent whole and the slot freed |
| `HandOff.HandOffAlways` | cc3000_basic_wifi_application/cc3000_basic_wifi_application.c:861-921 | over every interleaving of callbacks and consume steps, each buffer sent is one contiguous stretch of one frame, and the buffers sent follow each other in the camera's order without overlap |
| `HandOff.WholeExactly` | cc3000_basic_wifi_application/cc3000_basic_wifi_application.c:890-921 | a buffer sent from a closed frame is that whole frame if and only if the frame fits the slot and no consume step took a buffer strictly inside its bytes |
| `HandOff.CameraNeverMixesFrames` | cc3000_basic_wifi_application/uvc.c:533-575 | the same with the driver in front, for any camera packets |
| `HandOff.UncutSizes` | cc3000_basic_wifi_application/uvc.c:533-575 | a buffer sent of a frame that is not cut inside has the frame size, or 128 KiB if that is less |
| `HandOff.TornFrame` | cc3000_basic_wifi_application/cc3000_basic_wifi_application.c:1042-1050 | a run of camera packets and consume steps that sends the rest of a frame, of any length, as a frame |
| `FrameSlot.WholeFrameExactly` | cc3000_basic_wifi_application/cc3000_basic_wifi_application.c:890-921 | an undisturbed frame on a free slot is handed over whole under a new ID if and only if it is smaller than 128 KiB |
| `FrameSlot.PendingFrameLost` | cc3000_basic_wifi_application/cc3000_basic_wifi_application.c:890-921 | a frame that starts on a pending slot and is not interrupted leaves it unchanged until its end, which empties it (FrameFate.SentWholeExactly covers all interleavings) |
| `FrameFate.SentWholeExactly` | cc3000_basic_wifi_application/cc3000_basic_wifi_application.c:861-921 | over every interleaving, a closed frame has been sent whole if and only if it fits the slot, its first bytes found the slot free, and a consume step came between its end and the next frame's end (for a frame that fills the slot: between its last byte and its own end) |
| `FrameFate.CameraFrameExactly` | cc3000_basic_wifi_application/cc3000_basic_wifi_application.c:1042-1050 | the same with the driver in front, for any camera packets |
| `FrameIDs.IDCountsFreeStarts` | cc3000_basic_wifi_application/cc3000_basic_wifi_application.c:876-883 | the ID counts, 1 to 255 and around, the frames that started on a free slot |
| `FrameIDs.SameIDExactly` | cc3000_basic_wifi_application/cc3000_basic_wifi_application.c:861-886 | two buffers sent carry one ID if and only if the frames that started on a free slot between their consume steps are a multiple of 255, none included |
| `FrameIDs.ConsecutiveIDsExactly` | cc3000_basic_wifi_application/cc3000_basic_wifi_application.c:861-921 | two buffers sent one after the other carry one ID if and only if the second is of the frame inside which the first was taken, or 255, 510, ... frames started on a free slot in between |
| `FrameIDs.StaleID` | cc3000_basic_wifi_application/cc3000_basic_wifi_application.c:861-921 | a run that sends any two different frames, whole, under one ID |
| `Pipeline.EndToEnd` | BaseStation/client.cpp:103-143 | frames of at least 496 bytes with differing consecutive IDs, reordered and repeated within themselves and cut to the receive buffer: every frame but the last is flushed, in order, as the bytes that were sent; the last one's packets are held |
| `Pipeline.ShownExactly` | BaseStation/client.cpp:281-282 | the conversion of an uncompressed frame stays inside what was sent if and only if the frame has at least 38688 bytes |
| `Pipeline.SentAsType` | cc3000_basic_wifi_application/cc3000_basic_wifi_application.c:632-664 | what the station makes of any arrival of the packets sent in a stream format: for 4 the sent part, read past its end below 38688 bytes; for 6 the image in the sent part, by its marker positions; for any other nothing |
| `Pipeline.SentJpegCut` | cc3000_basic_wifi_application/cc3000_basic_wifi_application.c:645-664 | of a JPEG frame that ends in its only EOI the station shows the sent part less one byte, without the EOI |
| `Pipeline.PromptConsumerSendsAll` | cc3000_basic_wifi_application/cc3000_basic_wifi_application.c:1042-1050 | a consumer that never lets a frame start on a pending slot sends every closed frame whole, in order, under counting IDs |
| `Pipeline.PromptExactly` | cc3000_basic_wifi_application/cc3000_basic_wifi_application.c:861-921 | for frames below 128 KiB, every closed frame is sent or pending, whole, in order and under counting IDs, at every moment of a run if and only if no frame starts on a pending slot |
| `Pipeline.CameraToStation` | cc3000_basic_wifi_application/uvc.c:533-575 | from USB packets to the base station, with a consumer that keeps pace: all frames (as the driver cuts them) sent but the last are flushed in order, each up to the bytes the packetiser leaves out, and, in stream format 4, converted within bounds from 38688 bytes on |
| `Pipeline.StretchesToStation` | BaseStation/client.cpp:103-143 | for any placement of consume steps, when the buffers sent have at least 496 bytes and no two in a row share an ID, each group flushed gives back the sent part of one contiguous stretch of one frame, in the camera's order |
| `Pipeline.SenderFaultsExactly` | cc3000_basic_wifi_application/cc3000_basic_wifi_application.c:645-664 | for any placement of consume steps, a buffer makes the send loop run off if and only if it begins less than 248 bytes before its frame's end; it begins with its frame or where a consume step took another buffer |
| `Pipeline.UncutNeverRunsOff` | cc3000_basic_wifi_application/cc3000_basic_wifi_application.c:645-664 | a frame of at least 248 bytes never does so while no consume step takes a buffer inside its bytes |
| `Pipeline.TornFrameRunsOff` | cc3000_basic_wifi_application/cc3000_basic_wifi_application.c:1042-1050 | a run with frames of any size that does |
| `StreamChoice.ChoiceOptimal` | cc3000_basic_wifi_application/uvc.c:1193-1208 | the fields kept come from one descriptor and its format, the first of the highest usable rate of that format, of both formats unless it is MJPEG; nothing is kept if and only if no usable rate is above 0 |
| `StreamChoice.MjpegWhenLed` | cc3000_basic_wifi_application/uvc.c:1610-1622 | the stream is MJPEG if and only if some MJPEG descriptor beats every usable one before it |
| `StreamChoice.BestOfAllExactly` | cc3000_basic_wifi_application/uvc.c:1610-1622 | the highest usable rate of all is kept if and only if a descriptor of that rate was not shut out by an earlier leading MJPEG one |
| `StreamChoice.SlowerKept` | cc3000_basic_wifi_application/uvc.c:1610-1622 | an MJPEG descriptor in front shuts out a faster uncompressed one behind it; the other way round the faster one is kept |
| `StreamChoice.OnePipeLive` | cc3000_basic_wifi_application/uvc.c:1352-1375 | for any handles given out: at most one live pipe, and the pipes freed are those allocated before it, once each and in order |
| `StreamChoice.EndpointOptimal` | cc3000_basic_wifi_application/uvc.c:1342-1378 | unless an allocation fails, the pipe belongs to the first of the largest eligible endpoints |
| `StreamChoice.PipeExactly` | cc3000_basic_wifi_application/uvc.c:1342-1378 | over endpoints given by direction, number, transfer, synchronisation and size: unless an allocation fails there is a pipe if and only if one is an isochronous, asynchronous IN endpoint, and it is that of the first largest of them, with its number and size |
| `StreamChoice.EligibleExactly` | cc3000_basic_wifi_application/uvc.c:1342-1347 | an endpoint's address and attribute bytes pass the tests if and only if it is an isochronous, asynchronous IN endpoint |
| `StreamChoice.EveryEndpoint` | cc3000_basic_wifi_application/uvc.c:1342-1347 | every pair of address and attribute bytes is that of such a described endpoint |
| `StreamChoice.RefusedExactly` | cc3000_basic_wifi_application/uvc.c:1352-1375 | the driver stops for want of a pipe if and only if the library answers 0 for an eligible endpoint larger than every eligible one before it |
| `UvcDescriptors.Config.Step` | cc3000_basic_wifi_application/uvc.c:619-655 | one descriptor on from a boundary of a well-formed configuration is another boundary, strictly further and inside |
| `UvcDescriptors.InspectionsMeaning` | cc3000_basic_wifi_application/uvc.c:619-655 | the type bytes inspected lie on boundaries, in increasing order |
| `UvcDescriptors.OffersMeaning` | cc3000_basic_wifi_application/uvc.c:1168-1211 | each recorded descriptor is a frame descriptor on a boundary, read under a format descriptor of its own kind |
| `UvcDescriptors.OffersKnown` | cc3000_basic_wifi_application/uvc.c:1168-1211 | what the walk records meets the assumption under which the choice is optimal |
| `UvcDescriptors.StreamingIs` | cc3000_basic_wifi_application/uvc.c:1250-1278 | a streaming part presents the frames of its interface and the endpoints behind it, and faults if and only if the interface does |
| `UvcMeaning.FrameRunExact` | cc3000_basic_wifi_application/uvc.c:1151-1165 | a format's frames are the descriptors through which, from the format on, all are frame descriptors of its kind |
| `UvcMeaning.EndpointRunExact` | cc3000_basic_wifi_application/uvc.c:1261-1275 | a streaming part's endpoints are those through which all descriptors are endpoints, class-specific ones included; the run ends at the first other descriptor |
| `UvcMeaning.UnitsExact` | cc3000_basic_wifi_application/uvc.c:742-820 | the control header's loop ends at the first descriptor that is no unit or terminal covered by its total |
| `UvcMeaning.ControlEndExactly` | cc3000_basic_wifi_application/uvc.c:1223-1248 | the control part ends behind an association of a video collection, if one stands first, a video control interface, if one follows, a control header and the units its total covers, if one follows, and the endpoints behind; a descriptor that fails its test is not passed |
| `UvcMeaning.BodyFaultExactly` | cc3000_basic_wifi_application/uvc.c:1075-1123 | an input header's descriptors stop the driver if and only if one of the formats its total covers is uncompressed and has a length other than 27 or a zero first GUID word |
| `UvcMeaning.BodyFramesExactly` | cc3000_basic_wifi_application/uvc.c:1075-1123 | otherwise the frames taken are exactly those in the runs behind its formats |
| `UvcMeaning.BodyEndExactly` | cc3000_basic_wifi_application/uvc.c:1075-1123 | without defect the header's descriptors are class-specific to their end, which its total no longer covers or which is another descriptor |
| `UvcMeaning.InterfacesLinked` | cc3000_basic_wifi_application/uvc.c:635-654 | the interfaces the walk comes to: the first behind the control part, then each time the end of a streaming part without defect, up to a defect or another descriptor |
| `UvcMeaning.PresentedExactly` | cc3000_basic_wifi_application/uvc.c:619-655 | the walk stops in the fault state if and only if an interface it comes to has another class or subclass, a bad input header or a bad format; otherwise its frames and endpoints are exactly those of these interfaces |
| `UvcMeaning.ChoiceExactly` | cc3000_basic_wifi_application/uvc.c:1193-1208 | what the walk keeps of a configuration without defect are the fields of the first frame descriptor with the highest usable rate of its format, of both formats unless it is MJPEG; nothing if and only if no usable rate is above 0 |
| `UvcConfig.Camera.ParseFrame` | cc3000_basic_wifi_application/uvc.c:1585-1625 | a descriptor is taken if and only if it is a frame descriptor of its format, and the fields stay the best of those taken |
| `UvcConfig.Camera.ParseFrames` | cc3000_basic_wifi_application/uvc.c:1151-1165 | exactly the unbroken run of the format's frame descriptors is read |
| `UvcConfig.Camera.ParseInputHeader` | cc3000_basic_wifi_application/uvc.c:1044-1126 | the header's loop reads what its total announces and faults exactly where the reading does |
| `UvcConfig.Camera.ParseStreamingEndpoint` | cc3000_basic_wifi_application/uvc.c:1327-1381 | the endpoint is taken into account, and the walk stops if and only if no pipe is to be had; the library's answers are used in order, one for each endpoint larger than those before |
| `UvcConfig.Camera.ParseControl` | cc3000_basic_wifi_application/uvc.c:1223-1248 | the control part is stepped over to its exact end |
| `UvcConfig.Camera.ParseAllConfig` | cc3000_basic_wifi_application/uvc.c:619-655 | on a well-formed configuration the walk stays in bounds and on boundaries and never goes back; it faults if and only if the configuration presents a fault or an allocation fails; otherwise it has read exactly the frame, endpoint and interface descriptors presented, in order, and kept the best and the last setting |
| `UvcEncode.FrameReadBack` | cc3000_basic_wifi_application/uvc.c:1585-1625 | a frame descriptor laid out from its fields is read back: index, width, height, maximum bit rate and interval |
| `UvcEncode.CameraReadBack` | cc3000_basic_wifi_application/uvc.c:619-655 | the configuration of any camera, given as association, control interface, control header and units, endpoints, and settings with their input headers, formats, frames and endpoints, presents no fault and exactly its frames, endpoints and settings, field by field and in order |
| `UvcEncode.CameraChoice` | cc3000_basic_wifi_application/uvc.c:1193-1208 | over such a camera: the fields kept are those of the first frame with the highest maximum bit rate within the target, of its format, of both formats unless it is MJPEG; none if and only if every usable maximum is 0 |
| `UvcEncode.CameraPipe` | cc3000_basic_wifi_application/uvc.c:1327-1381 | over such a camera: the pipe is that of the first largest isochronous, asynchronous IN endpoint of all settings |
| `UvcCameras.CameraWellFormed` | cc3000_basic_wifi_application/uvc.c:619-655 | the configuration of any such camera is one that `ParseAllConfig` is for |
| `UvcCameras.CameraRecord` | cc3000_basic_wifi_application/uvc.c:619-655 | after the walk the record holds the best frame, the pipe of the best endpoint and the last setting's number and alternate, all in the camera's own fields |
| `UvcMeaning.SettingHoldsPipeExactly` | cc3000_basic_wifi_application/uvc.c:1292-1379 | the setting kept is followed by the pipe's endpoint if and only if some eligible endpoint behind the last interface is larger than every eligible one before |
| `UvcExample.SmallerLast` | cc3000_basic_wifi_application/uvc.c:1342-1378 | a well-formed configuration of 41 bytes whose last setting has the smaller endpoint: the pipe is the first setting's, the setting kept is the last |
| `Can.Controller.BitRateSet` | cc3000_basic_wifi_application/driverlib/can.c:553-671 | the rate and timing of the first ratio, within four of the start, that splits into a divisor of 4 to 19; control register restored; registers untouched if and only if the start is past the largest ratio |
| `Can.StartRatioLeast` | cc3000_basic_wifi_application/driverlib/can.c:573-589 | the search starts at the least ratio whose integer rate does not exceed the request |
| `Can.BitRateOptimal` | cc3000_basic_wifi_application/driverlib/can.c:594-664 | the rate returned, an integer quotient, does not exceed the request and is at least that of every usable ratio whose exact rate does not |
| `Can.ExceedsExactly` | cc3000_basic_wifi_application/driverlib/can.c:542-589 | the exact rate set exceeds the request if and only if the clock is no multiple of the rate, the rounded-down ratio is tried first, and it splits |
| `Can.TooFast` | cc3000_basic_wifi_application/driverlib/can.c:586-589 | a clock of 1000 and a rate of 33 set the ratio 30 |
| `Can.TableSegments` | cc3000_basic_wifi_application/driverlib/can.c:101-133 | each table row read back: segments that add up to its divisor, the first of half the divisor rounded up, and a jump width of the second segment or 4 |
| `Can.TableValues` | cc3000_basic_wifi_application/driverlib/can.c:101-133 | the sixteen table values as numbers |
| `Can.ReadBackExact` | cc3000_basic_wifi_application/driverlib/can.c:482-521 | reading the timing back gives the chosen ratio if and only if the pre-divisor is at most 1024 |
| `Can.SmallRatioFits` | cc3000_basic_wifi_application/driverlib/can.c:594-664 | it is, for every starting ratio up to 4096 |
| `Can.LargeRatioCutOff` | cc3000_basic_wifi_application/driverlib/can.c:579-580 | the ratio 8012, inside the asserted range, needs a pre-divisor beyond 1024 |
| `Can.CutOffSet` | cc3000_basic_wifi_application/driverlib/can.c:553-671 | a clock of 80 MHz and a rate of 9985 set it: 9985 is returned, the registers divide by 3916 |
| `Can.ZeroRateExactly` | cc3000_basic_wifi_application/driverlib/can.c:548-550 | a search that sets the registers still returns 0 if and only if a rate of 1 is requested and the clock itself does not split |
| `Can.ZeroRateSet` | cc3000_basic_wifi_application/driverlib/can.c:548-550 | a clock of 23 and a rate of 1 set the registers and return 0 |
| `Flash.Controller.Program` | cc3000_basic_wifi_application/driverlib/flash.c:191-256 | the flash ends as if the words were programmed one by one into a flat array, nothing else touched; the commits are those of the range; 0 if and only if every word is writable and needs no 0 bit to become 1, that is, if and only if the range is writable and now holds the data |
| `Flash.ProgrammedWord` | cc3000_basic_wifi_application/driverlib/flash.c:191-256 | word by word: in the range and in no locked block of 32 words, the old word with the bits cleared that the data has as 0; every other word as before |
| `Flash.TakenExactly` | cc3000_basic_wifi_application/driverlib/flash.c:246-250 | programming meets no error if and only if the range is writable and holds the data afterwards |
| `Flash.CommitsOrdered` | cc3000_basic_wifi_application/driverlib/flash.c:209-241 | no block is committed twice |
| `Flash.CommitsCover` | cc3000_basic_wifi_application/driverlib/flash.c:209-241 | a word is committed if and only if it is in the range |
| `Flash.ErasedTakesData` | cc3000_basic_wifi_application/driverlib/flash.c:191-256 | erased, writable flash takes any data and holds it |
| `Flash.ZeroBitRefused` | cc3000_basic_wifi_application/driverlib/flash.c:708-709 | a word of 0 does not take a 1: an error, and the word stays |
| `Eeprom.Controller.Program` | cc3000_basic_wifi_application/driverlib/eeprom.c:381-508 | exactly the words before the first denied one are stored, and the status says whether there was one |
| `Eeprom.Controller.Read` | cc3000_basic_wifi_application/driverlib/eeprom.c:307-359 | the words of the range, across any number of block ends |
| `Eeprom.Allowed` | cc3000_basic_wifi_application/driverlib/eeprom.c:462-473 | every word before the stop lies in a permitted block, and the stop itself, if any, in a denied one |
| `Eeprom.StoredReadsBack` | cc3000_basic_wifi_application/driverlib/eeprom.c:381-508 | reading a stored range gives the data back, and every other word is as before |

## Left out

- Sockets, poll time-outs, the disconnected picture, Qt widgets, image decoding and display, SD card writes: foreign calls; frames are recorded instead of shown.
- The camera's MJPEG payload handler (uvc.c lines 577-611): its end-of-frame test looks for the marker bytes in the wrong order, so there is no completeness to state.
- Preemption of the sender by the USB interrupt: callbacks and consume steps are atomic, but may interleave in any way.
- Probe and commit requests, the UVC version field, the stored association descriptor, the control interface number and the endpoint address that each input header stores over the pipe's: copied fields that decide nothing in the model.
- `UvcPayload.Driver.ParseReceivedPacket`: does not model the wrap of the 32-bit index, which only a USB packet within 255 bytes of 4 GiB could reach.
- `fid` in the payload handler: it is assigned and never used.
- `UvcConfig.Camera.ParseAllConfig`: is for well-formed configurations (descriptors of at least 3 bytes that fill the configuration, input-header totals inside it, a few readable bytes behind it); on others the source reads outside its buffer or does not end.
- `UvcEncode.CameraReadBack`: is for configurations that end with the streaming settings and for frame descriptors of at least 30 bytes, one interval included; interfaces behind the video part and shorter frame descriptors are covered by `UvcMeaning.PresentedExactly` alone.
- A second camera connection: the walk is modelled from a zeroed record, while closing a camera clears only its device and pipe, so a later walk would start from the record the first one left.
- `Can.Controller.BitRateSet`: takes over the source's asserted range of ratios; below it a ratio of 0 would be divided by, and a search from 1 to 3 ends at 4; above it nothing is found.
- `Flash.Controller.Program`: starts with an empty write buffer, which only this function fills; busy-waits end at once; the range ends below the top of the 32-bit address space; failures of the supply voltage or of the flash cells do not occur; a word that would need a 0 bit to become 1 keeps its 0 bits.
- `Eeprom.Controller.Program`: busy-waits end at once, and the workaround for the first silicon revision is not modelled.
- The JPEG dump loop of examine.cpp, view-wifi.cpp, dump.cpp, the GPS and WiFi event handlers, and the rest of driverlib: single register writes, foreign calls or repetitions.
