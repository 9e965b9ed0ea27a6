# CoActionOS: verified models of the core

Dafny models of the parts of CoActionOS whose correctness is hardest to see: the crash-safe firmware update, the
programming of LPC devices over their serial bootloader, and the codecs, filters, buffers and drawing routines
that go with them. `dafny verify dfyconfig.toml` checks everything.

| File | Component |
|---|---|
| `FirmwareUpdate.dfy` | `Link::updateOS` against a device and a link that may fail at any step |
| `BootFlash.dfy`, `Bootloader.dfy` | the device side of the update, and the decision at reset |
| `LpcTransfer.dfy`, `UuCode.dfy` | the stop-and-wait block sender and its UU lines |
| `LpcIsp.dfy`, `LpcDevices.dfy`, `VectorChecksum.dfy` | programming a device: erase discovery, page loop, sector table, checksum patch |
| `FlashCells.dfy` | flash in which programming can only clear bits |
| `Canvas.dfy`, `Line.dfy` | flood fill and line rasteriser of the monochrome display |
| `Rle.dfy` | run-length codec and its chunked file writer |
| `UsbFifo.dfy` | the ring buffer between USB packets and byte reads |
| `Ema.dfy` | fixed-point exponential moving average |
| `Base64.dfy`, `IntegerText.dfy` | Base64 and integer printing |
| `MBitmap.dfy` | packed bitmap |
| `Bytes.dfy` | bytes and shared facts about sequences |

Objects that the source updates in place are classes; each loop is a method with invariants, proved against a
function whose own properties are the lemmas. What is nondeterministic in the source's surroundings (link faults,
device replies, lost commands, endpoint packets, progress callbacks, the moment of a power loss) is a parameter
that ranges over everything, so each theorem holds for all of it.

## Results worth knowing

- The update is safe although nothing is assumed about the start address. The bootloader sends the attribute
  structure before it stores `startaddr` in it (`CoActionOS-Bootloader/src/link.c:171-182`), so the model lets the
  host see any value. No value makes a half-written image bootable; finishing means the image is where that value
  says.
- `lpc_write_data` reports success with unverified data at the end exactly when the size is a multiple of 45 and
  not of 900; LPC RAM pages (512 bytes) are not of that kind.
- The blank check result in `erase_dev` is unsigned and its error test never fires; the model ignores it in the
  same way, and no theorem needs it.
- With `alpha == 0` an `Ema` climbs by one on every step; with any other weight it rests just above its input,
  unless the input is held at the maximum of the type: one above it does not fit, the stored average wraps to the
  minimum, and it never rests. The band of the inputs is kept exactly when there is a weight and room above it.
- `Base64::encode` reads up to two bytes behind its data and lets some of their bits into the text.
- `Base64::dsize` is too small for texts whose length leaves remainder 1 or 2 by 4, which no encoder makes.
- `Base64::esize` overflows from 2^29 bytes on.
- `MBitmap::setsize` accepts negative sizes, and positive ones whose 32-bit product wraps.
- `setfill` tests the seed's row against the width (`xvisible(y)`). A seed beyond the right edge draws the last
  pixel of its row, and one from 2^31 on, which turns negative, the first.
- A device that reports any start address but that of programs is left unbootable by an update that finishes.
- `setline` computes without overflow up to 46340 steps along its longer axis, and not on the diagonal of 46341.

## Assumptions

- Application flash: `PROGRAM_START_ADDR` is the start of the first erasable page; erasing a page and programming
  at most 256 bytes are atomic; an application page that may be erased is; the driver refuses writes that are
  unaligned or outside the application flash. `BootFlash.AppFlash` states these.
- Link: a write call that returns the byte count has programmed the bytes; any other result is negative; an erase
  has ended when the next command is served. What is read may be wrong without notice (`Garbled`).
- Host: the file is read without error and does not change during the update; an image has at least 256 bytes,
  and the callback is not null.
- LPC device: a command is obeyed under the conditions of the part (prepared sectors, aligned addresses, ranges in
  memory) or it fails and changes nothing; "OK" after a block means it arrived as sent. The device is of the
  family it is named as, which has a sector table, and may have fewer sectors than the table.
- `File::write` writes everything it is given.

## Model

| member | source | states |
|---|---|---|
| FirmwareUpdate.UpdatesThenReset | CoActionOS/src/link/Link_cpp.cpp:905-1075 | Any number of updates, each failing or cut by power loss at any step, then a reset: the application is entered exactly when flash is bootable, the pin is high and nothing was requested, and flash is then what the device started with or holds one of the images completely and nothing else; every state on the way is that or unbootable |
| FirmwareUpdate.UpdateOS | CoActionOS/src/link/Link_cpp.cpp:905-1075 | One update: every state it adds is unbootable or the complete image; finishing means the complete image is where the device said programs start; without faults an image that fits is installed exactly when the progress callback never asks to stop; success took exactly the calls of the protocol, with no chunk coming back different, and failure exactly the calls of one of the ways it can end; a host that is not talking to a bootloader changes nothing |
| FirmwareUpdate.OneMoreAttempt | CoActionOS/src/link/Link_cpp.cpp:926-1071 | Safety of one update, whatever its image, carries the account of all states of all earlier updates over |
| FirmwareUpdate.WriteBody | CoActionOS/src/link/Link_cpp.cpp:967-989 | The write loop sends the chunks in order, each once, and asks the progress callback after each; it leaves exactly the image without its head, or ends because a write failed or the callback asked to stop, and then at once; without faults no write fails |
| FirmwareUpdate.WriteChunk | CoActionOS/src/link/Link_cpp.cpp:967-989 | A chunk is accepted only if it keeps flash write-once and unbootable; when it went through, the loop is one chunk further, otherwise the result is negative |
| FirmwareUpdate.ChunkIsSafe | CoActionOS/src/link/Link_cpp.cpp:969-972 | No chunk programs a byte for a second time and none, the first with its blanked head included, touches the word the boot decision reads |
| FirmwareUpdate.ChunkIsConfined | CoActionOS/src/link/Link_cpp.cpp:969-974 | Only bytes behind the head and before the end of the chunk are ever programmed with something other than 0xFF |
| FirmwareUpdate.ChunkExtends | CoActionOS/src/link/Link_cpp.cpp:969-982 | Programming the next chunk by bitwise and turns the partial image of `done` bytes into that of `done + n` bytes |
| FirmwareUpdate.HeadCompletes | CoActionOS/src/link/Link_cpp.cpp:1039-1043 | Programming the real head over the blanked one gives the image byte for byte and 0xFF around it |
| FirmwareUpdate.InstalledElsewhere | CoActionOS-Bootloader/src/link.c:171-182 | An image finished at any start but the start of programs leaves the device unbootable, and is the installed image only if it is blank |
| FirmwareUpdate.HeadIsSafe | CoActionOS/src/link/Link_cpp.cpp:1039-1043 | Over a complete body the head programs no byte twice, and leaves the boot word alone or completes the image in one unit |
| FirmwareUpdate.VerifyBody | CoActionOS/src/link/Link_cpp.cpp:993-1036 | The comparison matched a number of leading chunks and then all, or met a failed read, or met a chunk that came back different; without faults a written body, blanked head included, always matches |
| FirmwareUpdate.VerifyChunk | CoActionOS/src/link/Link_cpp.cpp:1005-1029 | One read is unread, matched or mismatched exactly as its count and bytes say, compared with the chunk as it was sent |
| FirmwareUpdate.Finish | CoActionOS/src/link/Link_cpp.cpp:991-1064 | Goes through with the head after a comparison that found nothing different, or fails by a chunk that came back different or by the head; a comparison cut short by a failed read does not keep the head from being written |
| FirmwareUpdate.WriteImage | CoActionOS/src/link/Link_cpp.cpp:967-1071 | After the attribute request: a failed write of the loop is followed by an erase, a stop by nothing, and a complete loop by the comparison and the head |
| FirmwareUpdate.FailedWritesAreErased | CoActionOS/src/link/Link_cpp.cpp:974-980 | However an update fails, its last call is not a failed write, unless it is that of the head |
| FirmwareUpdate.ReadsBack | CoActionOS/src/link/Link_cpp.cpp:1005-1016 | A written body reads back as the chunks that were sent |
| FirmwareUpdate.WriteHead | CoActionOS/src/link/Link_cpp.cpp:1039-1060 | The head goes last, onto a complete body: it either makes the image complete in one unit or leaves every state unbootable; it fails exactly by a failed write, a failed read, or a mismatch that is followed by an erase |
| FirmwareUpdate.Link.EraseFlash | CoActionOS/src/link/link_bootloader.c:79-87 | A failed erase call may have erased on the device; a successful one leaves everything blank and unprogrammed; no state on the way is bootable |
| FirmwareUpdate.Link.WriteFlash | CoActionOS/src/link/link_bootloader.c:130-159 | The full count is returned only when the device programmed the data; a lost call may have programmed any leading units; every state is unbootable or the goal |
| FirmwareUpdate.Link.ReadFlash | CoActionOS/src/link/link_bootloader.c:89-128 | The full count comes with that many bytes, and without faults they are the memory's |
| FirmwareUpdate.Link.GetAttr | CoActionOS-Bootloader/src/link.c:171-182 | The start address a host receives is arbitrary, because the reply is sent before the field is filled in |
| BootFlash.AppFlash.EraseFlash | CoActionOS-Bootloader/src/link.c:232-248 | Skips the bootloader's pages, erases the others in ascending order to the end, and every intermediate state is unbootable |
| BootFlash.AppFlash.WritePage | CoActionOS-Bootloader/src/link.c:191-207 | Refuses what is unaligned or out of range; otherwise programs leading 256-byte units, and every state on the way is unbootable or the goal |
| BootFlash.AppFlash.ProgramUnit | CoActionOS/include/dev/flash.h:39-47 | One atomic unit extends what is programmed by exactly its bytes |
| BootFlash.AppFlash.NextUnit | CoActionOS-Bootloader/src/link.c:204 | One more unit extends what is programmed by exactly its bytes and adds a state that is unbootable or the goal |
| BootFlash.UnitIsHarmless | CoActionOS/include/dev/flash.h:39-47 | Data that leaves the first word alone keeps flash unbootable after any unit; data that does not must be one single unit |
| BootFlash.UnbootableIffErasedWord | CoActionOS-Bootloader/src/bootloader_main.c:117 | Flash is unbootable exactly when its first little-endian word is 0xFFFFFFFF |
| Bootloader.BootDecision.CheckRunApp | CoActionOS-Bootloader/src/bootloader_main.c:113-134 | The application runs exactly when its first word is not erased, the pin is high and nobody asked for the bootloader; every refusal clears the request |
| Bootloader.BootDecision.Start | CoActionOS-Bootloader/src/bootloader_main.c:83-97 | Control passes to the application's own reset vector, the second little-endian word, and only from flash that is not unbootable |
| Bootloader.TwoResets | CoActionOS-Bootloader/src/bootloader_main.c:83-134 | A software request for the bootloader works once: the second reset starts the application |
| LpcTransfer.WriteData | CoActionOS-Applib/src/share/LpcPhy.cpp:873-961 | For every source and every pattern of OK, rejected and broken exchanges it ends; every block goes out as the lines of its pieces of 45 bytes, with its byte sum; what the device accepted is a prefix of the source without gap, repeat or reorder, and no block is tried more than three times; success means the covered part arrived and the lines of the rest went out, failure means a broken port or three rejections in a row |
| LpcTransfer.CoveredIffChecked | CoActionOS-Applib/src/share/LpcPhy.cpp:917-958 | Success covers the whole source exactly when its size is not a multiple of 45 or is a multiple of 900 |
| LpcTransfer.FrameNext | CoActionOS-Applib/src/share/LpcPhy.cpp:894-916 | One more line continues the lines of a block that are full so far |
| LpcTransfer.SendOne | CoActionOS-Applib/src/share/LpcPhy.cpp:894-917 | A line goes out, and the block ends with it exactly if it is the twentieth or not full |
| LpcTransfer.CheckBlock | CoActionOS-Applib/src/share/LpcPhy.cpp:917-957 | The end of a block leaves the sender at the start of the next one, or of this one again |
| LpcTransfer.Session.SendNext | CoActionOS-Applib/src/share/LpcPhy.cpp:894-916 | One line extends the block in progress by exactly the next bytes of the source and the checksum by their sum |
| LpcTransfer.Session.EndBlock | CoActionOS-Applib/src/share/LpcPhy.cpp:917-957 | An accepted block moves the verified mark to what was written, a rejected one goes back to it, and the third rejection in a row gives up |
| LpcTransfer.Session.TryBlock | CoActionOS-Applib/src/share/LpcPhy.cpp:922-940 | One checksum exchange is recorded whatever the answer, and the device keeps the block only on OK |
| LpcTransfer.AttemptRecorded | CoActionOS-Applib/src/share/LpcPhy.cpp:940-956 | Recording an attempt keeps the log faithful and the number of tries per block bounded; acceptance appends exactly the block |
| LpcTransfer.BoundaryKept | CoActionOS-Applib/src/share/LpcPhy.cpp:915-956 | Blocks start at multiples of 900 until an incomplete line ends the source |
| LpcTransfer.BoundaryCovers | CoActionOS-Applib/src/share/LpcPhy.cpp:917-960 | When the loop ends, the verified mark is the covered size |
| UuCode.RoundTrip | CoActionOS-Applib/src/share/uu_encode.c:97-170 | Decoding the line of 0 to 45 bytes, whatever follows it in the buffer, restores length and bytes although the decoder runs on past the line |
| UuCode.WordRoundTrip | CoActionOS-Applib/src/share/uu_encode.c:37-91 | Four characters give their three bytes back |
| UuCode.WordInNumbers | CoActionOS-Applib/src/share/uu_encode.c:20-57 | Four characters from 33 to 96 make up the same number as their three bytes, the first one the most significant |
| UuCode.DecodedInNumbers | CoActionOS-Applib/src/share/uu_encode.c:30-91 | Any four characters decode to the three bytes that make up the number of their six-bit values |
| UuCode.LineFrame | CoActionOS-Applib/src/share/uu_encode.c:107-120 | A line starts with its length above a blank, has four characters for every three bytes, and ends with CR LF |
| UuCode.LineInNumbers | CoActionOS-Applib/src/share/uu_encode.c:110-114 | The characters of every group of a line are printable and make up the number of its bytes, missing bytes being zero |
| UuCode.ScanFindsTerminator | CoActionOS-Applib/src/share/uu_encode.c:146-151 | No encoded character is CR or LF and the terminator lies within the bound of the scan, which therefore finds it |
| UuCode.PayloadOfLine | CoActionOS-Applib/src/share/uu_encode.c:97-123 | Anything that starts with the line of s announces the length of s and carries its bytes |
| UuCode.EncodeLine | CoActionOS-Applib/src/share/uu_encode.c:97-123 | Writes the length character, the groups, CR LF and a zero, and returns the length up to the zero |
| UuCode.DecodeLine | CoActionOS-Applib/src/share/uu_encode.c:130-170 | For every text in a 128-byte buffer all accesses stay inside both buffers; the groups found are decoded, the requested rest is cleared and nothing else changes; announced lengths over 45 are refused |
| LpcIsp.Program | CoActionOS-Applib/src/share/LpcIsp.cpp:51-140 | On success flash is the erased flash plus every page of the patched file that is not blank, and if all sectors were found it holds the patched file followed by 0xFF; an obedient device with room is programmed exactly when the progress callback never asks to stop; every copy the host asks for below the end of the sector table lies wholly inside one sector, the only one it prepared |
| LpcIsp.HoldsIffErased | CoActionOS-Applib/src/share/LpcIsp.cpp:250-265 | Skipping blank pages and padding the last one is right exactly when flash was erased wherever nothing was written |
| LpcIsp.EraseDev | CoActionOS-Applib/src/share/LpcIsp.cpp:278-305 | The discovery loop ends with the real number of sectors unless a command is lost, and exactly the sectors found are erased |
| LpcIsp.WriteProgmem | CoActionOS-Applib/src/share/LpcIsp.cpp:234-275 | The page loop returns the size only if every page was stored or blank and the callback let every page pass, otherwise zero, and every copy it asks for is aimed at its own sector |
| LpcIsp.WriteMem | CoActionOS-Applib/src/share/LpcPhy.cpp:207-268 | A reported page is in flash, padded with 0xFF, and outside sector 0 it compared equal; at most one copy is asked for, of this page and with this sector alone prepared |
| LpcIsp.Target.WriteRam | CoActionOS-Applib/src/share/LpcPhy.cpp:558-583 | Success means RAM holds all the bytes, under any pattern of block acknowledgements |
| LpcIsp.AcceptedIsConfined | CoActionOS-Applib/src/share/LpcPhy.cpp:230-240 | A copy a device accepts with one sector prepared lies wholly inside that sector |
| LpcIsp.LookupAims | CoActionOS-Applib/src/share/LpcIsp.cpp:257-260 | Preparing the sector that the lookup finds confines the copy of a page to it, on every device of the family and whatever the device checks; past the table the last sector is prepared |
| LpcIsp.PageInSector | CoActionOS-Applib/src/share/LpcIsp.cpp:257-260 | A 512-byte page that starts in a sector ends in it, so preparing that sector is enough |
| LpcIsp.SkipPage | CoActionOS-Applib/src/share/LpcIsp.cpp:250-255 | Leaving an all-0xFF page out changes nothing |
| LpcIsp.WritePage | CoActionOS-Applib/src/share/LpcPhy.cpp:221-260 | A programmed page holds its contents if it was erased before or compares equal afterwards |
| LpcIsp.PageStored | CoActionOS-Applib/src/share/LpcPhy.cpp:248-263 | A page reported as written is stored, in sector 0 too, where nothing is compared |
| LpcIsp.BeyondFlash | CoActionOS-Applib/src/share/LpcIsp.cpp:251-263 | When programming succeeds, the image has only 0xFF beyond the end of flash |
| LpcDevices.LookupSector | CoActionOS-Applib/src/share/lpc_devices.c:122-133 | Returns the sector whose address range holds the address, and the last sector past the end |
| LpcDevices.GetSectorNumber | CoActionOS-Applib/src/share/lpc_devices.c:112-120 | The sector of the first table row whose prefix the device name has; the last one past the table |
| LpcDevices.GetChecksumAddr | CoActionOS-Applib/src/share/lpc_devices.c:90-99 | The slot of the first row whose prefix matches, or -1 if none does |
| LpcDevices.SectorUnique | CoActionOS-Applib/src/share/lpc_devices.c:122-133 | No two sectors share an address |
| LpcDevices.SectorsAligned | CoActionOS-Applib/src/share/lpc_devices.c:24-85 | Every sector starts at a multiple of the page size |
| LpcDevices.TableFacts | CoActionOS-Applib/src/share/lpc_devices.c:24-85 | The lpc13 and lpc17 tables give every sector a page-aligned size, and 32 and 512 kilobytes in all; lpc21 has no table |
| VectorChecksum.PatchedSumsToZero | CoActionOS-Applib/src/share/LpcIsp.cpp:307-345 | The eight words of a patched vector table sum to zero modulo 2^32, for any aligned slot, and so do its 32 bytes weighed by 1, 0x100, 0x10000 and 0x1000000 by position |
| VectorChecksum.WordDigits | CoActionOS-Applib/src/share/LpcIsp.cpp:329-334 | The digits of a word to base 256 are its bytes, the lowest one first |
| VectorChecksum.WordsWeigh | CoActionOS-Applib/src/share/LpcIsp.cpp:329-334 | The sum of words is the sum of bytes by their weights |
| VectorChecksum.PatchIsIdempotent | CoActionOS-Applib/src/share/LpcIsp.cpp:322-341 | Patching ignores what was in the slot, so patching twice is patching once |
| VectorChecksum.SlotsInTable | CoActionOS-Applib/src/share/lpc_devices.c:24-48 | Both slot addresses of the table are aligned words of the vector table |
| VectorChecksum.WriteVectorChecksum | CoActionOS-Applib/src/share/LpcIsp.cpp:307-345 | Patches the buffer in place for a known device, and leaves it alone and fails for an unknown one |
| Canvas.Canvas.SetFill | CoActionOS-Applib/src/share/MLcd.cpp:269-288 | For every unsigned seed but x = 2^31 - 1: always ends; every pixel it changes was clear and is 4-connected to the seed through pixels that were clear at the call; from every pixel it draws it goes on: the pixel's whole stretch is drawn, and the first pixel beside the stretch that was clear in the row above and in the row below, where that row passes the visibility test; a seed off the screen draws the last pixel of its row, or the first one if it is negative as a signed number; exact effect for seeds that are set or not visible |
| Canvas.BorderHolds | CoActionOS-Applib/src/share/MLcd.cpp:269-288 | What is connected through clear pixels never leaves a closed border, so a fill does not cross one |
| Canvas.FillsJoin | CoActionOS-Applib/src/share/MLcd.cpp:282-287 | A second fill, started where the first may already have drawn, stays connected to the original seed |
| Canvas.Canvas.PartsGoOn | CoActionOS-Applib/src/share/MLcd.cpp:281-287 | The row of the seed and the two fills after it, each of which saw what the earlier ones had drawn, together go on from every pixel, as seen from the first picture |
| Canvas.Canvas.StretchKept | CoActionOS-Applib/src/share/MLcd.cpp:257-287 | Whatever a fill has drawn, a pixel that is still clear has the stretch it had at first |
| Canvas.Canvas.FillRow | CoActionOS-Applib/src/share/MLcd.cpp:278-281 | Draws exactly the stretch of the seed, and finds the leftmost clear pixel above and below it or proves there is none |
| Canvas.Canvas.TstHEdge | CoActionOS-Applib/src/share/MLcd.cpp:257-267 | Finds the ends of the clear stretch around x; if x is set the stretch is empty |
| Canvas.Canvas.TstHLine | CoActionOS-Applib/src/share/MLcd.cpp:240-254 | Finds the leftmost clear pixel before the right end, if there is one on the screen |
| Canvas.Canvas.SetHLine | CoActionOS-Applib/src/share/MLcd.cpp:168-178 | Sets exactly the pixels between the two ends brought onto the screen, or nothing on an invisible row |
| Canvas.Canvas.StretchUnique | CoActionOS-Applib/src/share/MLcd.cpp:257-267 | A seed has only one clear stretch |
| Canvas.SetLine | CoActionOS-Applib/src/share/MLcd.cpp:203-238 | A sloped line asks for exactly the pixels of Line.Pixels in order and sets those on the screen; Line.LoopFitsIff says which lines the 32-bit loop computes so |
| Line.NextPixel | CoActionOS-Applib/src/share/MLcd.cpp:222-235 | In all four quadrants the loop's truncating expression gives the next pixel of the line |
| Line.LoopExpression | CoActionOS-Applib/src/share/MLcd.cpp:227-233 | With division towards zero, the loop's quotient is the signed rounded minor offset |
| Line.LineEnds | CoActionOS-Applib/src/share/MLcd.cpp:220-237 | The first and the last of the max(|dx|,|dy|)+1 pixels are the end points |
| Line.LineSteps | CoActionOS-Applib/src/share/MLcd.cpp:226-233 | Each pixel moves one step along the major axis and at most one along the minor axis, towards the end |
| Line.LineAccuracy | CoActionOS-Applib/src/share/MLcd.cpp:222-235 | Twice the deviation of each pixel from the ideal line is at most the major extent: half a pixel |
| Line.MinorOffsetIff | CoActionOS-Applib/src/share/MLcd.cpp:227-233 | The minor offset is the one integer nearest to the ideal one, the larger of two equally near |
| Line.LoopFitsIff | CoActionOS-Applib/src/share/MLcd.cpp:222-235 | Every value the loop computes, from the product to the coordinate, is a 32-bit one exactly when the largest sum of the line is |
| Line.LinesUpTo46340Fit | CoActionOS-Applib/src/share/MLcd.cpp:222-235 | Lines of up to 46340 steps compute without overflow |
| Line.DiagonalOverflows | CoActionOS-Applib/src/share/MLcd.cpp:222-235 | The diagonal of 46341 steps overflows |
| Rle.GreedyIsShortest | CoActionOS-Applib/src/CoActionOS/Rle.cpp:38-73 | Optimality: no list of counted bytes that expands to the source is shorter than the encoder's |
| Rle.GreedyExpands | CoActionOS-Applib/src/CoActionOS/Rle.cpp:54-68 | The encoder's list expands to the source, with counts 1 to 255 |
| Rle.GreedySuffix | CoActionOS-Applib/src/CoActionOS/Rle.cpp:54-68 | Encoding a suffix never takes more elements than encoding the whole |
| Rle.GreedyCut | CoActionOS-Applib/src/CoActionOS/Rle.cpp:48-72 | Cut after any element: the part before stands for a prefix of the source, and encoding the rest anew yields the remaining elements |
| Rle.RoundTrip | CoActionOS-Applib/src/CoActionOS/Rle.cpp:75-93 | Decoding an encoding, whatever follows it in memory and with room for the data, restores it and uses every element |
| Rle.CappedOutputDecodes | CoActionOS-Applib/src/CoActionOS/Rle.cpp:49-52 | Whatever room the encoder had, its output decodes to exactly the part of the source it reported |
| Rle.FittingBounds | CoActionOS-Applib/src/CoActionOS/Rle.cpp:80-89 | The decoder stops only when the next element would overrun its room |
| Rle.Size | CoActionOS-Applib/src/CoActionOS/Rle.cpp:14-36 | Predicts the exact length of an encoding with enough room |
| Rle.Encode | CoActionOS-Applib/src/CoActionOS/Rle.cpp:38-73 | Writes as many whole elements of the shortest encoding as fit, reports the source bytes they stand for, and touches nothing behind them |
| Rle.Decode | CoActionOS-Applib/src/CoActionOS/Rle.cpp:75-93 | Expands the longest prefix of whole elements that fits, also for an odd size, which takes one byte from behind the source, and touches nothing behind it |
| Rle.RleFile.Write | CoActionOS-Applib/src/CoActionOS/Rle.cpp:96-116 | Chunk independence: through its 64-byte buffer it ends, consumes every byte and appends the encoding of the whole input |
| UsbFifo.LinkPhy.Read | CoActionOS-Bootloader/src/link_phy_usb.c:322-338 | Bytes returned plus bytes queued are the bytes the endpoint delivered, in order and without loss, over any sequence of reads, and nothing behind the bytes returned is touched; it asks the endpoint only while the request is not satisfied, and waits only when the endpoint has delivered too little |
| UsbFifo.LinkPhy.Serve | CoActionOS-Bootloader/src/link_phy_usb.c:326-336 | One request hands out what was queued and then the packets, and leaves the ring empty while it is not satisfied |
| UsbFifo.LinkPhy.Refill | CoActionOS-Bootloader/src/link_phy_usb.c:330-335 | A packet always fits in the ring whole, because the ring is empty when it is refilled |
| UsbFifo.Passed | CoActionOS-Bootloader/src/link_phy_usb.c:330-335 | One answer, split between the caller and the ring, continues the stream |
| UsbFifo.LinkPhy.ReadBuffer | CoActionOS-Bootloader/src/link_phy_usb.c:287-302 | Takes min(nbyte, queued) bytes off the front of the queue |
| UsbFifo.LinkPhy.WriteBuffer | CoActionOS-Bootloader/src/link_phy_usb.c:304-319 | Appends as many bytes as there is room for; a negative count appends nothing |
| UsbFifo.Popped | CoActionOS-Bootloader/src/link_phy_usb.c:290-299 | Reading the ring at its tail takes the first byte of the queue, across the wrap |
| UsbFifo.Pushed | CoActionOS-Bootloader/src/link_phy_usb.c:307-316 | Writing the ring at its head appends to the queue, across the wrap |
| UsbFifo.QueueBounds | CoActionOS-Bootloader/src/link_phy_usb.c:307-308 | The two index tests say exactly empty and exactly 255 bytes queued |
| Ema.Settles | CoActionOS-Applib/include/Ema.hpp:58-63 | Held at c below the maximum, the average reaches c + clamp(start - c, 1, 2^k / alpha) within as many steps as it is away, never leaves the span between, and stays |
| Ema.FixedPoints | CoActionOS-Applib/include/Ema.hpp:60-61 | The averages a constant input leaves alone are exactly those at a deviation d >= 1 with d * alpha <= 2^k |
| Ema.RestingOffset | CoActionOS-Applib/include/Ema.hpp:60-61 | The offset at rest is at least 1, at most max(start - c, 1), and d * alpha <= 2^k |
| Ema.StepApproaches | CoActionOS-Applib/include/Ema.hpp:60-61 | Each step moves strictly towards the resting value, does not pass it and does not change it |
| Ema.RunStays | CoActionOS-Applib/include/Ema.hpp:58-63 | Over a whole run of inputs in [lo, hi], with room for hi + 1 in the type, the average stays in [lo, hi + 1] and no narrowing wraps |
| Ema.StepStays | CoActionOS-Applib/include/Ema.hpp:60-61 | One step, before it is narrowed, keeps an average in [lo, hi + 1] there |
| Ema.BandIsKeptIff | CoActionOS-Applib/include/Ema.hpp:58-63 | Every run of inputs in [lo, hi] from a start in [lo, hi + 1] stays in [lo, hi + 1], as stored in the medium type, exactly when the weight is not zero and hi is below the maximum of the type, or the band is the whole range of the type |
| Ema.RestsIff | CoActionOS-Applib/include/Ema.hpp:58-63 | Held at c, the stored average stops changing exactly when the weight is not zero and c is below the maximum of the medium type |
| Ema.FullScaleWraps | CoActionOS-Applib/include/Ema.hpp:60-61 | An average at the maximum of the type given an input at the maximum becomes the minimum, whatever the weight |
| Ema.FullScaleFallsBack | CoActionOS-Applib/include/Ema.hpp:58-63 | Held at the maximum, the average falls back to the minimum of its type again and again, each time within as many inputs as it is away from wrapping |
| Ema.FullScaleStep | CoActionOS-Applib/include/Ema.hpp:60-61 | With an input at the maximum every average climbs, wraps from one above the type, and never stands still |
| Ema.ZeroWeightDrifts | CoActionOS-Applib/include/Ema.hpp:60-61 | With weight zero the average ignores its inputs and climbs by one on every step |
| Ema.LargeTypeSuffices | CoActionOS-Applib/include/Ema.hpp:54-96 | No intermediate result overflows the large type, in any of the four instantiations |
| Ema.FormatWidths | CoActionOS-Applib/include/Ema.hpp:57-96 | The small type has half the bits of the medium one and the large one twice as many, in all four instantiations |
| Ema.Filter.Calc | CoActionOS-Applib/include/Ema.hpp:58-63 | The field holds the average of all inputs so far, as wrapped to the medium type |
| Base64.RoundTrip | CoActionOS-Applib/src/share/Base64.cpp:23-87 | Decoding an encoding restores the data, whatever memory follows it |
| Base64.GroupRoundTrip | CoActionOS-Applib/src/share/Base64.cpp:37-40 | Four characters restore three bytes, and with one or two of them padded two or one |
| Base64.CanonicalIffCleanTail | CoActionOS-Applib/src/share/Base64.cpp:36-56 | The text is the canonical one, whose missing bytes are zero, exactly when the bits taken from behind the data are zero |
| Base64.CanonicalByTable | CoActionOS-Applib/src/share/Base64.cpp:36-56 | The canonical text is that of section 4 of RFC 4648: the characters of every group stand, in the table written out, for values that make up the number of its three bytes, with one padding character for every missing byte |
| Base64.GroupByTable | CoActionOS-Applib/src/share/Base64.cpp:37-44 | The four characters of a group stand in the table for values that make up the number of its three bytes |
| Base64.EncodesByTable | CoActionOS-Applib/src/share/Base64.cpp:94-110 | The character of each value is the one in the table of RFC 4648 |
| Base64.DecodesByTable | CoActionOS-Applib/src/share/Base64.cpp:112-136 | Each character of the table decodes to its value, and every other one to zero |
| Base64.DecodedByTable | CoActionOS-Applib/src/share/Base64.cpp:74-82 | Any four characters decode to the three bytes whose number their values make up |
| Base64.NoZeros | CoActionOS-Applib/src/share/Base64.cpp:58-60 | No character is zero, so the length returned by strlen is the length written |
| Base64.ESizeIsExact | CoActionOS-Applib/src/share/Base64.cpp:63-65 | esize, computed with 32-bit integers, is the length of the text exactly up to 2^29 - 1 bytes |
| Base64.DSizeSuffices | CoActionOS-Applib/src/share/Base64.cpp:89-91 | dsize covers what decode writes exactly when the length leaves remainder 0 or 3 by 4 and its product does not overflow |
| Base64.Encode | CoActionOS-Applib/src/share/Base64.cpp:23-61 | Writes the padded text and its zero and returns its length, which is esize up to 2^29 - 1 bytes |
| Base64.Decode | CoActionOS-Applib/src/share/Base64.cpp:67-87 | Writes three bytes for every four characters and nothing behind them |
| IntegerText.Utoa | CoActionOS-Applib/src/share/StringUtil.cpp:136-165 | The text reads back to the number, has max(significant digits, width, 1) digits, and its terminator lies inside the 36-byte buffer |
| IntegerText.Itoa | CoActionOS-Applib/src/share/StringUtil.cpp:35-69 | The signed text reads back to the number and its terminator lies inside the buffer |
| IntegerText.UtoaMode | CoActionOS-Applib/src/share/StringUtil.cpp:167-183 | The five modes print in bases 2, 8, 16, 16 and 10 a text that reads back to the number, in digits of that base, upper case in the one mode only |
| IntegerText.PrintedInDigits | CoActionOS-Applib/src/share/StringUtil.cpp:143-159 | Every character is the digit of a value below the base, in the case asked for |
| IntegerText.DigitByTable | CoActionOS-Applib/src/share/StringUtil.cpp:18-33 | The digits of both cases are those of a table written out |
| IntegerText.PrintedReadsBack | CoActionOS-Applib/src/share/StringUtil.cpp:143-162 | Reading the digits shown restores the number, in every base and width |
| IntegerText.SignedReadsBack | CoActionOS-Applib/src/share/StringUtil.cpp:42-65 | Reading the signed text restores the number |
| IntegerText.TakenIffShown | CoActionOS-Applib/src/share/StringUtil.cpp:154-159 | The copy loop's three-way test takes exactly the digits that are significant or asked for |
| IntegerText.Fits32 | CoActionOS-Applib/src/share/StringUtil.cpp:143 | A 32-bit number has at most 32 digits in any base from 2 on |
| MBitmap.Replay | CoActionOS-Applib/src/share/MBitmap.cpp:58-72 | After any sequence of set, clear and clear-all the packed bytes show a plain map from coordinates to bool |
| MBitmap.MBitmap.SetPixel | CoActionOS-Applib/src/share/MBitmap.cpp:58-62 | Sets the pixel in range and no other |
| MBitmap.MBitmap.ClrPixel | CoActionOS-Applib/src/share/MBitmap.cpp:64-68 | Clears the pixel in range and no other |
| MBitmap.MBitmap.Clear | CoActionOS-Applib/src/share/MBitmap.cpp:70-72 | Clears every pixel and no byte behind the bitmap |
| MBitmap.MBitmap.TstPixel | CoActionOS-Applib/src/share/MBitmap.cpp:51-56 | Reads the bit at the offset and mask of the coordinates, which in range is the pixel |
| MBitmap.MBitmap.SetSize | CoActionOS-Applib/src/share/MBitmap.cpp:40-48 | Accepted or unchanged, by the 32-bit product; an accepted size keeps every pixel inside the allocation exactly when the machine represents it without a sign or an overflow, or its last pixel still fits |
| MBitmap.SamePixel | CoActionOS-Applib/include/MBitmap.hpp:43-44 | Pixels that share a byte and a bit are the same pixel |
| MBitmap.PixelOfRow | CoActionOS-Applib/include/MBitmap.hpp:43-44 | Pixel x of a row of bytes read as one number is its x-th most significant bit |
| MBitmap.MBitmap.PixelInMemory | CoActionOS-Applib/include/MBitmap.hpp:43-44 | Row y of the picture is the y-th stretch of bytes, and its pixel x the x-th most significant bit |
| MBitmap.OneBit | CoActionOS-Applib/include/MBitmap.hpp:44 | Setting or clearing one bit leaves the other seven pixels of the byte alone |
| MBitmap.OffsetInside | CoActionOS-Applib/include/MBitmap.hpp:43 | Every pixel in range has its byte inside columns times rows |
| MBitmap.AcceptedSizesAreSafe | CoActionOS-Applib/src/share/MBitmap.cpp:40-48 | An accepted size that is not negative and whose product does not overflow is safe although its fields are cut to 16 bits |
| MBitmap.AcceptedIsSafeIff | CoActionOS-Applib/src/share/MBitmap.cpp:40-48 | For all 32-bit arguments, an accepted size is safe in any allocation of at least data_size bytes exactly when it is not negative and does not overflow, or its last pixel, computed from the cut fields, fits |
| MBitmap.NegativeWidthEscapes | CoActionOS-Applib/src/share/MBitmap.cpp:40-46 | Widths -7 to -1 are accepted by every bitmap and put pixels outside any allocation of up to 8191 bytes |
| MBitmap.NegativeHeightEscapes | CoActionOS-Applib/src/share/MBitmap.cpp:40-46 | Heights below zero are accepted by every bitmap and put row 32767 outside any allocation of up to 32767 bytes |
| MBitmap.OverflowEscapes | CoActionOS-Applib/src/share/MBitmap.cpp:40-46 | 370728 by 46341 is accepted by every bitmap, because its product wraps, and puts pixels outside any allocation of up to 65535 bytes |
| FlashCells.ErasedIsNeutral | CoActionOS/src/link/Link_cpp.cpp:971 | Programming 0xFF, or programming an erased cell, is the identity on the other operand |
| FlashCells.ProgrammingClears | CoActionOS-Applib/src/share/LpcPhy.cpp:236-240 | A bit is set after programming exactly when it was set before and is set in the data |
| FlashCells.BurnBlank | CoActionOS-Applib/src/share/LpcPhy.cpp:237-240 | Programming erased cells stores the data |

## Left out

- FirmwareUpdate.UpdateOS: its return value is modelled as the source computes it, but nothing rests on it; success is that the status reaches "Finalizing...". A failed verification read does not stop the head from being written, as in the source.
- FirmwareUpdate.Link.ReadFlash: the wire protocol under the link calls, with its acknowledgements and error numbers, is not part of this model.
- BootFlash.AppFlash.ErasePage: an application page whose erase fails for a moment is not modelled; the source's loop would stop there.
- Bootloader.BootDecision.Start: the update loop that runs when the application is refused appears only as the device side of FirmwareUpdate.
- LpcTransfer.WriteData: checksums travel as numbers and not as decimal text, and the echo and no-echo ways of waiting for OK are one nondeterministic answer. Texts are taken to arrive as written.
- LpcIsp.WriteMem: writes of more than 512 bytes are not modelled, because the source does not advance the address and no caller asks for them.
- LpcIsp.Program: starting the interface, shutting it down and the device lpc21, which has no sector table, are not modelled; files of 1 to 31 bytes are excluded, because the source reads a whole vector table.
- VectorChecksum.WriteVectorChecksum: the checksum is an unbounded integer of which the low 32 bits are stored; the width of `unsigned long` makes no difference to them.
- LpcDevices.GetSectorNumber: a name whose row has no sector table is excluded; the source would run off the table.
- Canvas.Canvas.SetFill: completeness is not claimed, since the source follows only the first clear pixel above and below; pixel storage, which subclasses provide, is a set of points. The seed x = 2^31 - 1, for which `tsthedge` overflows a signed integer, is excluded.
- Canvas.SetLine: the horizontal and vertical shortcuts (`CoActionOS-Applib/src/share/MLcd.cpp:193-201`) are not modelled, their arguments not being those `sethline` and `setvline` expect; coordinates are unbounded, and past the lines of Line.LoopFitsIff, where the source's integers overflow, the model does not say what is drawn.
- Rle.Size: the empty input is excluded in Size, Encode and RleFile.Write, because the source reads one byte of it.
- UsbFifo.LinkPhy.Read: the source waits for ever when the endpoint delivers too little; the model returns and says that it is waiting.
- Ema.Filter.Calc: the floating-point variant of the filter is not modelled.
- IntegerText.Utoa: bases outside 2 to 36, which have no digits to read back, and widths from 36 on, which overrun the buffer, are excluded.
- IntegerText.Itoa: the smallest 32-bit number, whose negation is undefined, and widths that leave no room for sign and terminator are excluded; floating-point printing is not modelled.
- Base64.Decode: texts are read in whole groups of four characters, as in the source; malformed characters decode as zero.
- MBitmap.MBitmap.SetSize: signed overflow, which the language leaves undefined, is taken to wrap.
- MBitmap.MBitmap.TstPixel: a test whose byte lies outside the memory, which the source does not check, is excluded.
- Read-only bitmaps and bitmaps of 65536 pixels or more on a side.
- `lpc_read_data` and the other receive paths of the LPC serial protocol.
- USB enumeration, peripheral drivers and their wrappers, register tables, fonts, file and serial I/O, waits and debug output.
- `Token`, `String`, `SMach`, task flags, settings and application paging, which would only add easy members.
