# STM32F103 DFU bootloader: a verified model

The bootloader sits in the first 8 KB of a 128 KB flash. At reset it programs an image that an
application may have left in an external SRAM, or starts the application, or becomes a USB device
that takes firmware over the DFU class with ST block numbering. The project models the configuration
of `Core/Inc/flash_config.h` (checksum, SRAM image, DFU upload and WinUSB on; write protection,
read-out protection and SAFEWRITE off) and proves what the parts promise together.

The model has two layers.

* Specification: transition functions on values. `Usb` has one function for each function of usb.c,
  `UsbRun` makes them a state machine over host tokens (SETUP, OUT, IN, bus reset, in any order),
  `Dfu` is the DFU driver, `FlashMemory` the flash, `SramImage` and `Boot` the SRAM update as a script
  of atomic hardware actions, `Checksum` and `Patcher` the checksum and the tool that stamps it.
* Firmware: the same code as it runs, in place. `UsbDevice.Endpoint`, `DfuDriver.Driver`,
  `FlashDriver.Chip` and `BootMain.Machine` are objects with the globals, buffers, registers and packet
  memory of usb.c, usbdfu.c, flash.c and main.c; `EndpointRegister`, `PlainRegister`, `PacketMemory`,
  `Memory`, `Checksum` and `Patcher` hold the register macros and the loops. Every method states its
  whole new state by the transition function of the same name, so all theorems hold of the objects.

The theorems are about whole runs. A run starts in any state the invariant allows and takes any
tokens; a log records what happened. `Transfers`, `Download` and `Programming` carry a download from
USB packets to flash pages, `Reassembly` says which packets the data of a request is made of,
`Readiness` when the next transfer can be taken, `Causality` what must have happened before any flash
operation, reset or address change, `PageHistory` who wrote each page last, `AnyOrder` what holds even if
completions are served late, `Boot` what a power failure between any two actions of an update can do,
`InterruptedDownload` what one during a download can. `Enumeration`, `Conversation` and `Upload` write
the answers of the device out as bytes, through the whole transfer. `Release` joins the tool, both ways
into the flash and the boot decision.

Where the code and a document disagree the model follows the code. GETSTATUS in the error state
reports the number of the state (10) as the status. The string "FW-CRC" calls the checksum a CRC; it
is an exclusive or. DETACH and the empty DNLOAD reset the system only behind a
completed GETSTATUS. A valid SRAM image is programmed even when DFU mode is requested. A bus reset
leaves `usb_fsm_state` as it was. DNLOAD is accepted in every DFU state. The magic number of an SRAM
image is stored as the bytes of "SBAM", not "SRAM".

Some promises hold only under a condition, and the condition is proved to be exact, with an input at
which the promise fails:

* the device answers at the address it was given if and only if no SET_FEATURE or CLEAR_FEATURE for
  ENDPOINT_HALT has reached USB_DADDR as endpoint number 19, or has left its bits 6 to 4 alone
  (`Causality.AddressIsLatched`, `Causality.HaltMovesAddress`); number 20 moves USB_BTABLE (`Causality.TableIsKept`);
* an ERASE leaves its page blank if and only if its check, which begins at the address and not at the
  page, has seen a byte that is not erased, or nothing in front of the address needed it
  (`Programming.EraseBlanks`, `FlashMemory.EraseMissesFront`);
* an image survives a download if and only if its length is even or its odd last byte is 0xFF
  (`Download.DownloadIsExact`, `Download.SingleByteIsLost`);
* a patched file passes if and only if its length reaches past the checksum field or the words before it
  cancel (`Patcher.PatchedValidates`, `Patcher.ZeroLengthFails`);
* an update that is interrupted behind word 8 is started if and only if the area of the size in word 8
  happens to have the right checksum (`Boot.PartialImageJumps`, `Release.IncompleteImageCanBoot`);
* a packet is lost to a SETUP that is served before a pending IN completion if and only if the new answer
  takes several packets (`StaleCompletion.StaleCompletionDrops`, `StaleCompletion.UploadIsCut`);
* a download that loses power behind word 8 is started under the same condition
  (`InterruptedDownload.CutDownloadBoots`);
* a device stays able to take the next transfer if and only if no packet comes that nobody expects, no
  halt request cuts it off and nothing resets it (`Readiness.ReadyKept`, `Readiness.ReadyFromPowerOn`,
  `Readiness.StrayPacketSticks`, `Readiness.TableMoves`);
* a read stays inside the control buffer unless it is one of those in `Safety.ReadsLeaveBuffer`
  (`Safety.LongAbortLeavesBuffer`).

`dafny verify dfyconfig.toml` checks the project. None of the firmware was executed.

## Model

| member | source | states |
|---|---|---|
| Release.UsbReleaseBoots | Core/Src/main.c:351-384 | For every firmware file of at most 120 KB that the tool has stamped and that starts with a plausible stack pointer, every device that can take a SETUP and every flash contents: the packets of a DFU download followed by the request to leave DFU mode reset the device, and the boot decision is then to jump, when no image waits in the SRAM. The application area then holds the firmware as it was, but for the two fields. |
| Release.SramReleaseBoots | Core/Src/main.c:301-384 | Such a file staged in the SRAM at any allowed offset is taken at the next boot, whatever the flash holds and whether or not DFU mode was asked for; it is programmed, the flash then holds the firmware but for the two fields, and the boot after that starts it. |
| Release.ReleaseIsConsistent | Releas-PRG/checksum.py:12-35 | A file stamped with the default length holds its own size at 0x20 and passes the check of the bootloader over that size. It is the firmware but for these fields. |
| Release.ReleaseJumps | Core/Src/main.c:351-384 | A flash that holds such a file is started, when no image waits in the SRAM and DFU mode is not requested. |
| Release.DownloadAndLeave | Core/Src/usbdfu.c:56-146 | A download and the leave request end in a system reset with the file in the flash, for a file whose odd last byte is none or 0xFF. |
| Release.StagedIsValid | Core/Src/spi_sram_image.c:8-53 | A stamped file behind a right header is a valid SRAM image, and the image is the file. |
| Release.IncompleteImageCanBoot | Core/Src/main.c:313-384 | Behind word 8 the update is not protected: there are an accepted image and a reset point after which the bootloader starts an application area that is not the image. |
| Release.TwinTailJumps | Core/Src/main.c:313-384 | A whole family of such resets: the last two words of the image are equal and the reset comes right before them. |
| Transfers.ControlReadReassembles | Core/Src/usb.c:342-361 | For every request with an IN data stage, every answer length and every wLength: the host that follows section 5.5.3 of USB 2.0 gets exactly the prescribed packets, their concatenation is the answer cut to wLength, it stops at the device's last packet, and the device then waits for the status stage; a refused request stalls, and one that takes the peripheral off the bus gets no answer. |
| ControlRead.SendAll | Core/Src/usb.c:342-361 | The induction behind it: from any point of an answer the chunks, the zero-length packet and the end of data agree with the host. |
| ControlRead.PacketSizes | Core/Src/usb.c:582-589 | All packets but the last are 64 bytes, and the last one is empty exactly when the data is whole packets and shorter than what was asked for. |
| ControlRead.PacketsConcat | Core/Src/usb.c:342-361 | The packets put together are the data. |
| Transfers.ReadStarts | Core/Src/usb.c:596-606 | A read hands the request to the handler once, cuts the answer to wLength and sends the first chunk, or stalls. |
| Transfers.NoDataStarts | Core/Src/usb.c:591-616 | A request without data is handled once and confirmed with an empty packet, or stalls. |
| Answers.NoDataTransfer | Core/Src/usb.c:591-616 | A handled request without data leaves, behind its status stage, what its handler made of the device. |
| Answers.ShortSetup | Core/Src/usb.c:638-653 | A SETUP packet of less than eight bytes stalls, and nothing is handled. |
| Answers.LongSetup | Core/Src/usb.c:638-653 | Of a longer one the first eight bytes are the request. |
| Enumeration.DescriptorAnswers | Core/Src/usb.c:379-396 | The host that sends 80 06 00 01 reads the device descriptor, cut to wLength, and with 80 06 00 02 the configuration descriptor. |
| Enumeration.StringAnswers | Core/Src/usb.c:397-439 | Which string it reads for each index and language, or that it is refused. |
| Enumeration.VendorAnswers | Core/Src/usb.c:554-575 | The vendor request C0 41 reads the WinUSB descriptors. |
| Enumeration.StatusAnswers | Core/Src/usb.c:441-502 | The answers to GET_CONFIGURATION, GET_STATUS, GET_INTERFACE and SET_INTERFACE; GET_STATUS of an interface is refused. |
| Enumeration.EndpointStatus | Core/Src/usb.c:504-522 | GET_STATUS of an endpoint reports whether it is halted. |
| Enumeration.DaddrStatus | Core/Src/usb.c:319-332 | For the address 0x93 it reports bits 5 and 4 of USB_DADDR. |
| Enumeration.HaltIsReported | Core/Src/usb.c:504-522 | After SET_FEATURE the endpoint is reported halted, after CLEAR_FEATURE it is not, and no other endpoint is affected. |
| Enumeration.ConfigurationClearsHalts | Core/Src/usb.c:454-465 | SET_CONFIGURATION ends all halts. |
| Enumeration.ResetClearsHalts | Core/Src/usb.c:774-788 | So does a bus reset, which also sets the address to 0. |
| Enumeration.HandledExactly | Core/Src/usb.c:441-580 | The table of all requests that are handled, by their bytes. |
| Enumeration.UnsupportedIsRefused | Core/Src/usb.c:591-616 | Every other request meets a STALL before any data. |
| Enumeration.UnsupportedWriteIsRefused | Core/Src/usb.c:655-692 | Or behind its data, if it has any, with driver and flash as they were. |
| Transfers.ControlWriteReassembles | Core/Src/usb.c:618-680 | From any device that can take a SETUP, for every request with an OUT data stage whose packets follow one another: more than 1024 bytes stall at once; otherwise the handler runs once, behind the last packet, and finds the data of all packets at the start of the control buffer with nothing else of the device changed. |
| Reassembly.DeliveriesAreAssembled | Core/Src/usb.c:655-680 | In every run from power-on, with SETUPs, bus resets, refused tokens and packets of any length at any time: data is handed to a handler only behind exactly wLength / 64 packets, rounded up, that have arrived since the SETUP of its request, all full but the last, which brings at least the rest; the data is their concatenation cut to wLength. |
| Reassembly.RequestsHaveData | Core/Src/usb.c:596-680 | In every run the DFU handler runs only behind the SETUP of a read or of a request without data, or behind such data, which is then the payload of a download. |
| Reassembly.BufferHoldsPackets | Core/Src/usb.c:364-377 | In every state in which data is expected the control buffer holds the packets since the SETUP, all full, and datasize is 64 times their number. |
| Reassembly.RunKeeps | Core/Src/usb.c:638-719 | The agreement between log and control buffer that carries these theorems is kept by every run. |
| Transfers.PacketCount | Core/Src/usb.c:618-636 | The data stage takes wLength / 64 packets, rounded up. |
| Transfers.CutWriteStalls | Core/Src/usb.c:364-377 | A packet that is too short, directly behind any number of whole ones, stalls to IDLE and no handler has run. |
| ControlWrite.WriteData | Core/Src/usb.c:655-680 | Packets that complete the data bring exactly one handler call on their concatenation. |
| ControlWrite.PartialWrite | Core/Src/usb.c:655-666 | Packets that do not complete the data are only stored. |
| ControlWrite.LastPacket | Core/Src/usb.c:667-680 | The last packet may be longer than the rest; the surplus is dropped and the handler runs. |
| ControlWrite.ShortPacket | Core/Src/usb.c:364-377 | A short packet stalls both directions and changes nothing else. |
| ControlWrite.NoInDuringWrite | Core/Src/usb.c:618-636 | An IN token in the data stage of a write is refused. |
| ControlWrite.SetupStep | Core/Src/usb.c:638-653 | A SETUP of eight bytes is taken in any state, clears the callback, and goes to the read or the write branch by length and direction. |
| UsbRun.Step | Core/Src/usb.c:638-719 | Every token keeps the invariant of the control endpoint. |
| UsbRun.Run | Core/Src/usb.c:774-817 | Every sequence of tokens does. |
| Safety.ReachableStates | Core/Src/usb.c:618-704 | In every state reached after power-on: how much data is missing in DATA_OUT and LAST_DATA_OUT, forced NAK while data goes in and open reception while it comes out, no counter overrun, and no packet dropped on a busy endpoint. |
| Safety.WritesStayInBuffer | Core/Src/usb.c:364-439 | Over every run nothing is written behind the 1024 bytes of the control buffer. |
| Safety.ReadsLeaveBuffer | Core/Src/usb.c:591-606 | Exactly when a read shows RAM behind the control buffer: it asks for more than 1024 bytes with DNLOAD, CLRSTATUS, ABORT or DETACH, or with SET_CONFIGURATION or a halt request while the transfer before had more than 1024 bytes to go. |
| Safety.LongAbortLeavesBuffer | Core/Src/usb.c:591-606 | The input: ABORT sent as a read of 1025 bytes is answered with the byte behind the control buffer. |
| Readiness.ReadyKept | Core/Src/usb.c:638-719 | A device that can take a SETUP still can behind a token if and only if the token does not complete the status stage of a request to leave DFU mode, does not bring a halt request for endpoint number 20 or for the resume bit to its handler, and is no OUT packet in a state that expects none: guards on the token and the device before it. |
| Readiness.StepCuts | Core/Src/usb.c:638-719 | Exactly which tokens reset the system, and exactly which take the peripheral off the bus. |
| Readiness.StrayPacketSticks | Core/Src/usb.c:689-690 | The input: an empty OUT packet directly behind the first bus reset gets the endpoint stuck. |
| Readiness.TableMoves | Core/Src/usb.c:294-317 | Another: CLEAR_FEATURE(ENDPOINT_HALT) for endpoint number 20 ends what a device that could take a SETUP can do. |
| Readiness.ReadyFromPowerOn | Core/Src/usb.c:774-788 | In every run from power-on with a bus reset the device can take the next transfer if and only if the log holds no system reset and no halt request that cuts the peripheral off, and no packet of the run came that nobody expects. |
| Readiness.StuckForever | Core/Src/usb.c:689-690 | A packet nobody expects is stalled without being acknowledged; no request is handled after it, and a bus reset does not help. |
| Readiness.StepListens | Core/Src/usb.c:655-692 | The endpoint gets stuck exactly on such a packet. |
| StaleCompletion.StaleCompletionDrops | Core/Src/usb.c:251-263 | Exactly when the early return for a busy endpoint is taken if a SETUP is served before a pending IN completion: the new request is a read whose answer takes more than one packet. |
| StaleCompletion.ServedLateCases | Core/Src/usb.c:694-719 | What a SETUP served before a pending IN completion does, for every request: a long read loses its second packet, a one-packet read stalls when the host collects it, a request without data has its callback and its SET_ADDRESS before the host has seen the status packet, every other request stalls. |
| StaleCompletion.UploadIsCut | Core/Src/usb.c:251-256 | An UPLOAD of a block of the application is such a long read. |
| AnyOrder.AnyOrderReplays | Core/Src/usb.c:774-817 | Whatever endpoint state the hardware presents to the poll and in whatever order completions are served, late ones among them: the flash is what the committed payloads in the log make of it, and nothing is written behind the control buffer. |
| AnyOrder.AnyOrderKeepsBootloader | Core/Src/usb.c:774-817 | Over all these orders no byte of the bootloader changes, and the flash is locked after each poll. |
| AnyOrder.LateIsCovered | Core/Src/usb.c:790-805 | A completion that is served behind the next SETUP is one of these orders. |
| Causality.CommitsHaveCause | Core/Src/usbdfu.c:56-113 | The flash is touched only directly behind the status stage of a GETSTATUS, for a payload downloaded before, with a GETSTATUS handled since and no download, leave request, ABORT, UPLOAD or commit in between. |
| Causality.CommitsHaveDistinctCauses | Core/Src/usbdfu.c:63-113 | A payload is acted on at most once. |
| Causality.DownloadsAreCommitted | Core/Src/usbdfu.c:29-105 | And it is acted on: the first GETSTATUS transfer that completes before anything ends the wait is followed at once by the commit of that payload. |
| Causality.LeavesAreReset | Core/Src/usbdfu.c:37-40 | In the same way a waiting DETACH or empty DNLOAD is followed by the system reset. |
| Causality.ResetsHaveCause | Core/Src/usbdfu.c:37-40 | A system reset goes back to a DETACH or an empty DNLOAD, a GETSTATUS handled since and its completed status stage, with no download, further leave request, ABORT or UPLOAD in between. |
| Causality.CompletionsHaveSetup | Core/Src/usb.c:681-715 | Every completed transfer belongs to the last SETUP before it, and no SETUP completes twice, so the callback runs at most once per SETUP. |
| Causality.FlashIsReplay | Core/Src/usbdfu.c:56-113 | After every run the flash is what the committed payloads, in order, make of the flash at power-on. |
| Causality.AddressIsLatched | Core/Src/usb.c:441-453 | In every run: the address in USB_DADDR is that of the last SET_ADDRESS whose status stage completed since the last bus reset, else 0, if and only if no halt request for endpoint number 19 was handled since, or those that were give its bits 6 to 4 back; in every case it is what they make of it. |
| Causality.AddressIsLatchedWithoutHalts | Core/Src/usb.c:705-715 | Without a halt request for endpoint number 19 the address is the latched one. |
| Causality.HaltMovesAddress | Core/Src/usb.c:294-317 | SET_FEATURE(ENDPOINT_HALT) for endpoint 0x13 makes a device at address 0x15 answer at address 5. |
| Causality.HaltStep | Core/Src/usb.c:504-522 | What a halt request for any endpoint number does to the address and to the peripheral. |
| Causality.TableIsKept | Core/Src/usb.c:294-317 | USB_BTABLE stays where usb_init has put it exactly in the runs without a halt request for endpoint number 20. |
| Causality.LinkSettled | Core/Src/usb.c:294-317 | What the first request that takes the peripheral off the bus does is final. |
| Causality.RunKeepsBootloader | Core/Src/usbdfu.c:60-102 | Over every run no byte of the bootloader changes, and the flash is locked after every token. |
| Causality.RunLinked | Core/Src/usb.c:638-719 | The agreement between log and device that carries these theorems is kept by every run. |
| Causality.PhaseMeaning | Core/Src/usbdfu.c:29-46 | What a waiting download or leave request means in terms of the events of the log. |
| History.StepChange | Core/Src/usb.c:638-719 | Every token changes device and log in one of six ways. |
| History.RequestDrives | Core/Src/usbdfu.c:115-199 | The state transition that each handled DFU request stands for. |
| Programming.PagesAreLastWritten | Core/Src/usbdfu.c:65-105 | Over every sequence of ERASE and SETADDR commands for any addresses and data blocks, commands shorter than five bytes among them, each page holds what the last payload that struck it says, padded with 0xFF; an ERASE strikes its page when the 1024 bytes from its address on are not all 0xFF, a block when it starts the page. A block that starts inside a page leaves what programming makes of the pages it reaches. |
| PageHistory.PagesAreLastCommitted | Core/Src/usbdfu.c:65-105 | In every run from power-on each page holds what the last commit in the log that struck it says, in the same sense. |
| PageHistory.LastCommitDecides | Core/Src/usbdfu.c:65-105 | A commit that strikes a page decides what the page holds at the end of the run, if no later commit reaches it. |
| PageHistory.UntouchedPageIsKept | Core/Src/usbdfu.c:65-105 | A page that no commit of the run reaches is as it was at power-on. |
| Programming.RecordedPage | Core/Src/usbdfu.c:65-105 | Any page after any payload at any address. |
| Programming.DistinctBlocksCommute | Core/Src/usbdfu.c:89-102 | Blocks for different pages commute. |
| Programming.ResendReplaces | Core/Src/usbdfu.c:89-102 | Sending a block number again replaces its page. |
| Programming.PerformEffect | Core/Src/usbdfu.c:56-105 | The exact effect of any acknowledged payload, at any address and on any flash, on flash, address pointer and the buffer bytes that later commands read. |
| Programming.PerformAllEffect | Core/Src/usbdfu.c:56-105 | The same for every sequence of payloads. |
| Programming.EraseBlanks | Core/Src/usbdfu.c:71-81 | An ERASE at any address leaves its page blank if and only if some of the 1024 bytes from there on was not 0xFF or all bytes of the page in front of it were. |
| FlashMemory.EraseMissesFront | Core/Src/flash.c:59-65 | An ERASE of the application address plus 4 does nothing to a page whose first byte alone is not erased. |
| Programming.BufferedCommand | Core/Src/usbdfu.c:76-85 | A command shorter than five bytes takes the missing ones from the payload before it. |
| Programming.PageEffect | Core/Src/usbdfu.c:89-102 | A block at a page start leaves the page holding it, padded. |
| Programming.ImageEffect | Core/Src/usbdfu.c:89-102 | The blocks of an image put the padded image into the flash. |
| Programming.PaddedImageBytes | Core/Src/flash.c:67-81 | The padded image is the image without an odd last byte, then 0xFF. |
| Programming.AlignedRange | Core/Src/usbdfu.c:96-96 | What the wrapping range check means for an aligned address. |
| Transfers.DnloadTransfer | Core/Src/usbdfu.c:119-135 | A DNLOAD transfer, packet by packet, buffers the payload and leaves the flash alone. |
| Transfers.GetStatusTransfer | Core/Src/usbdfu.c:179-191 | A GETSTATUS transfer moves the state on and then runs the completion callback once. |
| Conversation.GetStatusAnswers | Core/Src/usbdfu.c:179-191 | The six bytes that GETSTATUS answers in every state, written out. |
| Conversation.GetStateAnswers | Core/Src/usbdfu.c:192-195 | GETSTATE answers the number of the state. |
| Conversation.DownloadConversation | Core/Src/usbdfu.c:29-113 | Behind the data of a DNLOAD the host reads busy and 100 ms, behind the GETSTATUS that acted on it idle, as bytes. |
| Conversation.LeaveConversation | Core/Src/usbdfu.c:121-124 | Behind a DNLOAD without data it reads the manifest state. |
| Conversation.ClearStatus | Core/Src/usbdfu.c:136-139 | CLRSTATUS leads out of the error state, and changes nothing in any other. |
| Conversation.AbortIdles | Core/Src/usbdfu.c:140-142 | ABORT leads to the idle state from any state, and a payload that waits is never acted on. |
| Conversation.DetachResets | Core/Src/usbdfu.c:143-146 | DETACH announces the reset, and the next GETSTATUS brings it, with the flash as it was. |
| Conversation.SetAddressCommand | Core/Src/usbdfu.c:63-88 | The command byte 0x21 with four address bytes sets the pointer and nothing else. |
| Conversation.EraseCommand | Core/Src/usbdfu.c:63-88 | The command byte 0x41 makes the page at its address 0xFF, if it is one of the application, and nothing else. |
| Conversation.UnknownCommand | Core/Src/usbdfu.c:63-88 | Any other command does nothing. |
| Transfers.LeaveTransfer | Core/Src/usbdfu.c:119-124 | An empty DNLOAD leaves the driver waiting for a GETSTATUS. |
| Transfers.LeaveResets | Core/Src/usbdfu.c:106-109 | The GETSTATUS behind it resets the system with the flash as it was. |
| Download.SendAllPayloads | Core/Src/usb.c:618-715 | Payloads sent packet by packet have the effect of the payloads. |
| Download.DownloadWritesImage | Core/Src/usbdfu.c:56-134 | For every image of at most 120 KB, every flash contents and every device that can take a SETUP: a download leaves the padded image in the application area and every other page as it was. |
| Readiness.DownloadFromPowerOn | Core/Src/usbdfu.c:56-134 | The same from power-on: after any run with a bus reset that has none of these events the download is in the flash. |
| Download.DownloadIsExact | Core/Src/flash.c:67-81 | The application area holds exactly the image if and only if its length is even or its last byte is 0xFF. |
| Download.SingleByteIsLost | Core/Src/flash.c:67-81 | An image of a single zero byte is lost. |
| Download.UploadReturnsDownload | Core/Src/usbdfu.c:147-178 | A whole block sent and uploaded again comes back byte for byte through OUT packets, flash and IN packets. |
| Download.UploadAnswer | Core/Src/usbdfu.c:157-178 | An UPLOAD inside the application area answers with the flash, cut to wLength. |
| Upload.UploadAnswers | Core/Src/usbdfu.c:147-178 | For every address pointer and block: an UPLOAD answers the KB of the flash at the address of the block if it lies in the application area, and nothing unless the range check wraps at the end of the address space. |
| Upload.CommandListAnswer | Core/Src/usbdfu.c:149-156 | Block 0 answers 00 21 41. |
| Upload.BlockPackets | Core/Src/usb.c:342-361 | A KB travels in sixteen packets of 64 bytes, in order. |
| Upload.BlockIsRead | Core/Src/usbdfu.c:147-178 | The transfer with its status stage: the driver is in the error state exactly if there was nothing to read, and nothing else has changed. |
| Upload.NothingOutside | Core/Src/usbdfu.c:166-175 | With the pointer at 0x08002000, block 1 and the blocks from 122 on answer nothing and lead to the error state. |
| Upload.ErrorIsReported | Core/Src/usbdfu.c:166-191 | GETSTATUS then reports the error until CLRSTATUS ends it. |
| Upload.UploadIsComplete | Core/Src/usbdfu.c:147-178 | A host that reads blocks 2, 3, ... until it gets less than a KB has the 120 KB of the application area, byte for byte. |
| Upload.DownloadThenUpload | Core/Src/usbdfu.c:56-178 | Behind a download it has the padded image, and what was behind that before. |
| Dfu.CommitKeepsBootloader | Core/Src/usbdfu.c:56-102 | Acting on a payload never changes the bootloader, whatever the command, address, block number and length. |
| Dfu.RangeCheck | Core/Src/usbdfu.c:77-96 | The range check is the intended one exactly as long as the 32-bit sum does not wrap. |
| DfuDriver.Driver.constructor | Core/Src/usbdfu.c:14-24 | The initial state. |
| DfuDriver.Driver.GetStatus | Core/Src/usbdfu.c:29-46 | The state transition, and the status and poll timeout to report. |
| DfuDriver.Driver.Commit | Core/Src/usbdfu.c:63-102 | The flash operation on the buffered payload, in place. |
| DfuDriver.Driver.GetStatusComplete | Core/Src/usbdfu.c:56-113 | Unlock, operation, lock and next state, or the system reset. |
| DfuDriver.Driver.ControlRequest | Core/Src/usbdfu.c:115-199 | The whole new state, control buffer, length, callback and verdict for every request. |
| DfuDriver.Driver.Download | Core/Src/usbdfu.c:125-134 | The payload goes to the program buffer, cut to its size. |
| DfuDriver.Driver.Upload | Core/Src/usbdfu.c:147-178 | Command list, flash block or error. |
| DfuDriver.Driver.ReportStatus | Core/Src/usbdfu.c:179-191 | The six status bytes; in the error state the status byte is the number of the state. |
| FlashDriver.Chip.Unlock | Core/Src/flash.c:38-45 | The key sequence opens the lock and changes nothing else. |
| FlashDriver.Chip.Lock | Core/Src/flash.c:25-36 | The lock is closed. |
| FlashDriver.Chip.ErasePage | Core/Src/flash.c:47-57 | The page that contains the address is 0xFF and nothing else changes; nothing at all while the flash is locked. |
| FlashDriver.Chip.PageIsErased | Core/Src/flash.c:59-65 | The word loop finds out whether the 1024 bytes from the address on are 0xFF. |
| FlashDriver.Chip.ProgramBuffer | Core/Src/flash.c:67-81 | len / 2 halfwords are programmed in order, and the contents the flash passes through are those of the single steps. |
| FlashMemory.ProgramErasedHalves | Core/Src/flash.c:67-81 | Over erased flash, programming writes exactly the data. |
| FlashMemory.ProgramAnywhere | Core/Src/flash.c:67-81 | Over any flash, programming at an even address changes exactly the halfwords that are erased, or whose data is 0. |
| FlashMemory.EraseAnywhere | Core/Src/flash.c:47-65 | An erase at any address, with the check that begins at the address and not at its page. |
| FlashMemory.WriteBlockAnywhere | Core/Src/usbdfu.c:96-101 | A block at any address. |
| FlashMemory.WriteBlockAtPage | Core/Src/usbdfu.c:96-101 | A block at the start of a page leaves that page holding the block and 0xFF behind it, whatever was there. |
| FlashMemory.EraseAtPage | Core/Src/usbdfu.c:79-80 | Erasing only if needed is the same as erasing. |
| FlashMemory.EraseKeepsBootloader | Core/Src/flash.c:47-57 | An erase at any address from the application on leaves the bootloader alone. |
| FlashMemory.ProgramKeepsBootloader | Core/Src/flash.c:67-81 | So does programming, even when the addresses wrap. |
| FlashMemory.LockedNeverChanges | Core/Src/flash.c:47-81 | A locked flash never changes. |
| Memory.Memcpy | Core/Src/main.c:444-451 | The bytes are copied and all others kept. |
| UsbDevice.Endpoint.constructor | Core/Src/usb.c:101-113 | With a cleared register the device is at power-on. |
| UsbDevice.StatusEncoding | Core/Inc/usb.h:366-376 | The codes of the endpoint status in the register. |
| UsbDevice.Endpoint.WritePacket | Core/Src/usb.c:251-263 | The packet is in the packet memory and transmission VALID, or it is dropped because the endpoint is busy. |
| UsbDevice.Endpoint.ReadPacket | Core/Src/usb.c:265-279 | The received bytes, up to the length asked for, are in the buffer, and reception is VALID again unless NAK is forced. |
| UsbDevice.Endpoint.NakSet | Core/Src/usb.c:281-292 | Forced NAK and the reception status. |
| UsbDevice.Endpoint.StallSet | Core/Src/usb.c:294-317 | The status of endpoint 0, the halted state of endpoints 1 to 7, the address register for number 19, and the loss of the bus for number 20 and for IN with number 16. |
| UsbDevice.Endpoint.StallGet | Core/Src/usb.c:319-332 | Whether it is STALL. |
| UsbDevice.Endpoint.StallTransaction | Core/Src/usb.c:334-338 | Both directions STALL, state IDLE. |
| UsbDevice.Endpoint.SendChunk | Core/Src/usb.c:342-361 | The next 64 bytes or the rest are in the packet memory, and offset, remaining length, pending zero-length packet and state have moved on. |
| UsbDevice.Endpoint.RecvChunk | Core/Src/usb.c:364-377 | The chunk is appended to the control buffer, or the transfer stalls. |
| UsbDevice.Endpoint.GetDescriptor | Core/Src/usb.c:379-439 | The descriptor answered, or refused. |
| UsbDevice.Endpoint.DeviceRequest | Core/Src/usb.c:441-481 | Standard requests to the device. |
| UsbDevice.Endpoint.InterfaceRequest | Core/Src/usb.c:483-502 | Standard requests to the interface. |
| UsbDevice.Endpoint.EndpointRequest | Core/Src/usb.c:504-522 | Standard requests to an endpoint, of whatever number. |
| UsbDevice.Endpoint.StandardRequest | Core/Src/usb.c:524-539 | The recipient is told apart. |
| UsbDevice.Endpoint.DfuDispatch | Core/Src/usb.c:543-552 | The class request goes to the DFU driver with wLength as the length. |
| UsbDevice.Endpoint.Dispatch | Core/Src/usb.c:541-580 | Class, vendor and standard requests are told apart. |
| UsbDevice.Endpoint.SetupRead | Core/Src/usb.c:591-616 | The request is handled once, then the answer is cut to wLength and its first chunk sent, or the status packet of a request without data sent, or the endpoint stalled. |
| UsbDevice.Endpoint.SetupWrite | Core/Src/usb.c:618-636 | A length above 1024 stalls; otherwise the data stage is open in the state for one or for several packets. |
| UsbDevice.Endpoint.ControlSetup | Core/Src/usb.c:638-653 | The callback is cleared, NAK forced, the request taken in and given to the read or the write branch; a packet of another size stalls. |
| UsbDevice.Endpoint.ControlOut | Core/Src/usb.c:655-692 | A chunk of data, the last one with its handler, the status stage of a read with its callback, or a stall, by the state of the transfer. |
| UsbDevice.Endpoint.Handle | Core/Src/usb.c:667-680 | The request of a write is handled once on its data and confirmed, or stalls. |
| UsbDevice.Endpoint.ControlIn | Core/Src/usb.c:694-719 | The next chunk, the change to the status stage, the status stage of a write with its callback and the device address, or a stall, by the state of the transfer. |
| UsbDevice.Endpoint.ControlReset | Core/Src/usb.c:778-788 | Endpoint and address are reset, usb_fsm_state is not. |
| UsbDevice.Endpoint.Poll | Core/Src/usb.c:774-805 | A poll serves the bus reset, or else the transfer that ISTR and the SETUP bit report. |
| UsbDevice.Endpoint.Serve | Core/Src/usb.c:774-805 | Hardware, with the SETUP bit frozen while a packet is unserved, and poll together do one step of the run, and keep the invariant. |
| UsbDevice.Endpoint.ServeAll | Core/Src/main.c:417-437 | The main loop does a run, so every theorem about runs holds of the object. |
| PacketMemory.CopyToPm | Core/Src/usb.c:167-211 | The unrolled copy stores exactly the words of the packet, the odd last byte with a zero high half, and touches no other slot. |
| PacketMemory.CopyFromPm | Core/Src/usb.c:213-249 | The unrolled copy writes exactly len bytes, the packet. |
| PacketMemory.StoreLoad | Core/Src/usb.c:167-249 | Storing and loading is the identity for every length. |
| PacketMemory.StoredLayout | Core/Src/usb.c:167-211 | Where each byte of a packet is in the memory, and that the slots between are not touched. |
| PacketMemory.StoreKeepsOthers | Core/Src/usb.c:167-211 | A packet elsewhere in the memory is not disturbed. |
| EndpointRegister.MacrosAreAssignments | Core/Inc/usb.h:256-504 | Any sequence of the macros acts on the raw register as independent assignments on a record. |
| EndpointRegister.MacroAssigns | Core/Inc/usb.h:421-504 | Each macro is one assignment. |
| EndpointRegister.ViewIsFaithful | Core/Inc/usb.h:421-504 | The record determines the register and the other way round. |
| EndpointRegister.LateTransfer | Core/Inc/usb.h:444-504 | Which CTR flags survive when the hardware raises them between the read and the write of a macro, for each macro. |
| EndpointRegister.LateStatusChange | Core/Inc/usb.h:461-463 | The receive status macro gives the wanted status if and only if the field did not change meanwhile. |
| EndpointRegister.LateTxStatusChange | Core/Inc/usb.h:465-467 | The same for the transmit status macro. |
| EndpointRegister.HaltOnPlainRegister | Core/Inc/usb.h:461-478 | What the status macros with the DTOG macros make of the low byte of USB_DADDR. |
| PlainRegister.HaltedRegisterIsMacros | Core/Src/usb.c:294-317 | For every value of USB_DADDR the address the model computes behind a halt request is the one the macros leave in the register. |
| EndpointRegister.HaltOnTable | Core/Inc/usb.h:461-478 | They move USB_BTABLE away from 0. |
| EndpointRegister.HaltOnControl | Core/Inc/usb.h:461-478 | Of the low bits of USB_CNTR only RESUME is touched, by SET_FEATURE for IN. |
| EndpointRegister.Register.UseSetRxStat | Core/Inc/usb.h:461-463 | The macro as a read and a write of the register assigns one field and keeps all others. |
| EndpointRegister.Register.UseSetTxStat | Core/Inc/usb.h:465-467 | The macro as a read and a write of the register assigns one field and keeps all others. |
| EndpointRegister.Register.UseClrRxDtog | Core/Inc/usb.h:475-478 | The macro as a read and a write of the register assigns one field and keeps all others. |
| EndpointRegister.Register.UseClrTxDtog | Core/Inc/usb.h:470-473 | The macro as a read and a write of the register assigns one field and keeps all others. |
| EndpointRegister.Register.UseClrRxCtr | Core/Inc/usb.h:500-501 | The macro as a read and a write of the register assigns one field and keeps all others. |
| EndpointRegister.Register.UseClrTxCtr | Core/Inc/usb.h:503-504 | The macro as a read and a write of the register assigns one field and keeps all others. |
| EndpointRegister.Register.UseSetType | Core/Inc/usb.h:421-425 | The macro as a read and a write of the register assigns one field and keeps all others. |
| EndpointRegister.Register.UseSetAddr | Core/Inc/usb.h:427-431 | The macro as a read and a write of the register assigns one field and keeps all others. |
| Checksum.ValidateChecksum | Core/Src/checksum.c:5-13 | The loop decides whether the exclusive or of start value and words is zero. |
| Checksum.StartValue | Core/Src/checksum.c:5-13 | The one image of a single word that passes, byte by byte: the start value. |
| Checksum.ValidateChecksumStream | Core/Src/checksum.c:15-45 | The chunk loop computes the streamed checksum, fails on a null callback, an odd size or a failed read, and makes exactly the planned read calls, in order. |
| Checksum.StreamRefinesCheck | Core/Src/checksum.c:15-45 | For every size that is a multiple of 4 and every chunk size the streamed verdict is that of the simple check. |
| Checksum.PlanCovers | Core/Src/checksum.c:28-42 | The calls visit every byte of the range exactly once and none outside it. |
| Checksum.StreamFailsWithRead | Core/Src/checksum.c:30-33 | The stream fails if and only if one of its reads does. |
| Checksum.SingleChangeIsNoticed | Core/Src/checksum.c:5-13 | An image with one covered word altered passes if and only if the word is the original one. |
| Checksum.TailDecides | Core/Src/checksum.c:5-13 | Two images that agree up to a word pass or fail together if and only if their tails have the same exclusive or. |
| Patcher.PatchFile | Releas-PRG/checksum.py:12-35 | The tool as it runs computes the patched file, or stops with an exception. |
| Patcher.PatchKeepsFirmware | Releas-PRG/checksum.py:12-35 | Every byte of the firmware outside 0x1C to 0x23 is in the patched file at its place, with zeros behind up to a whole number of words. |
| Patcher.PatchAccepts | Releas-PRG/checksum.py:16-32 | Exactly which lengths the tool accepts. |
| Patcher.PatchedValidates | Releas-PRG/checksum.py:25-35 | The patched file holds the size at 0x20 and passes the check over it, if and only if the length reaches past the checksum field or the words before it happen to cancel. |
| Patcher.ZeroLengthFails | Releas-PRG/checksum.py:16-35 | With the length 0 the patched file fails. |
| Patcher.PatchIsIdempotent | Releas-PRG/checksum.py:12-35 | Patching again with the default length changes nothing. |
| Patcher.PatchedTamperIsNoticed | Releas-PRG/checksum.py:25-35 | For every length argument from 0x20 on: a patched file with one covered word other than the size altered fails the check. |
| SramImage.ValidImageIsSound | Core/Src/spi_sram_image.c:8-53 | An accepted header bounds the image inside its region, all reads of the check are in bounds, and the verdict is that of the simple check on the image. |
| SramImage.HeaderBounds | Core/Src/spi_sram_image.c:25-48 | The 32-bit bounds arithmetic of the header has no overflow that matters. |
| SramImage.HeaderExactly | Core/Src/spi_sram_image.c:8-48 | The header checks accept exactly the headers with the four magic bytes, a size of whole words of at most 120 KB, and an offset that keeps the image behind the header and inside the region. |
| SramImage.HeaderFields | Core/Inc/sram_image_header.h:14-32 | Offset and size are at bytes 4 and 8, least significant byte first. |
| SramImage.ClearedHeaderIsInvalid | Core/Src/spi_sram_image.c:15-18 | Without the first byte of the magic number there is no image. |
| Boot.EarlyResetsAreHarmless | Core/Src/main.c:311-324 | Any number of resets before the first header byte is cleared: the image is still accepted and a complete update ends in the same flash. |
| Boot.HeaderIsUsedOnce | Core/Src/main.c:319-324 | Once the header clear has begun no later boot programs from that header. |
| Boot.UnfinishedUpdateMeansDfu | Core/Src/main.c:319-363 | A reset from then until word 8 is programmed always leads to DFU mode. |
| Boot.PartialImageJumps | Core/Src/main.c:351-367 | Behind word 8, exactly when a reset is followed by a jump into the incomplete image, for every accepted image; if word 8 is the size of the image that is when the missing words have the exclusive or of the erased ones. |
| InterruptedDownload.CutDownloadBoots | Core/Src/main.c:350-384 | A power failure behind any number of blocks and any number of halfwords of the next block of a USB download: until word 8 is in place the next boot goes to DFU mode, from then on it jumps exactly if stack pointer, size and checksum of the area that is left pass. |
| Boot.UpdateWritesImage | Core/Src/main.c:310-342 | A complete update leaves the image, 0xFF up to the end of its last page, and all else as it was. |
| Boot.UpdateBoots | Core/Src/main.c:311-384 | After a complete update of an image that states its own size the bootloader jumps if and only if DFU mode is not forced and the stack pointer passes its mask. |
| Boot.UpdatesKeepBootloader | Core/Src/main.c:313-341 | No update, however often interrupted, changes the bootloader. |
| Boot.ErasePhase | Core/Src/main.c:313-317 | The storage after any number of page erases. |
| Boot.ClearPhase | Core/Src/main.c:319-324 | The storage after the erases and some cleared header bytes. |
| Boot.CopyPhase | Core/Src/main.c:326-342 | The storage after the erases, the clear and some halfwords. |
| Boot.DecideOnPartial | Core/Src/main.c:351-384 | The decision on an application area that holds part of an image. |
| Boot.DecideOnArea | Core/Src/main.c:351-384 | The decision on any application area. |
| Boot.ImageComesFirst | Core/Src/main.c:301-347 | The bootloader starts an update if and only if the SRAM holds an accepted header and the image behind it has the right checksum, whatever the flash holds and whether or not DFU mode was asked for. |
| StackPointer.StackPointerIsMasked | Core/Src/main.c:363 | The test of the stack pointer is the comparison under the mask 0x2FFE0000. |
| StackPointer.StackPointerExamples | Core/Src/main.c:363 | The top of 20 KB of RAM passes; an address 128 KB behind its start and an erased word do not. |
| BootMain.Machine.UpdateFromSram | Core/Src/main.c:301-347 | The loops as they run pass exactly through the storage contents of the interrupted updates, in order, and end with the complete one. |
| BootMain.Machine.ErasePages | Core/Src/main.c:313-317 | The erase loop passes through the first cuts of the script. |
| BootMain.Machine.ClearHeader | Core/Src/main.c:319-324 | The header write passes through the next ones, byte by byte. |
| BootMain.Machine.CopyImage | Core/Src/main.c:326-342 | The chunk loop passes through the rest, halfword by halfword. |
| BootMain.Machine.CheckImage | Core/Src/spi_sram_image.c:8-53 | The checks in their order decide whether there is a valid image. |
| BootMain.Machine.Start | Core/Src/main.c:287-384 | main decides as specified, an update resets with the flags cleared, and nothing else changes the storage. |
| BootMain.CutsAreInterruptions | Core/Src/main.c:301-347 | The contents passed through are those a reset can leave behind. |

## Left out

- Completions that are pending when the next token arrives: in a run over tokens a completion is served before the next token. `StaleCompletion` says for every request what that rules out for an IN completion and a SETUP; flash, bootloader and control buffer are safe in any order of service (`AnyOrder`), the order of requests in the log is not followed there.
- UsbDevice.Endpoint.ServeAll: one completion for each token, as in the line above.
- A peripheral that is off the bus: once USB_BTABLE has moved, or RESUME is raised, the run stands still. The firmware would go on with packet buffers that are not there.
- Data toggles, retries and errors on the bus: the hardware's business. A token the endpoint does not accept leaves the device as it is.
- Endpoints 1 to 7: only whether they are halted, as a set of addresses. Halt requests for the numbers 8 to 15, 17, 18 and from 21 on do nothing: there is no register, a read-only one, or in ISTR only flags that are served already. Of USB_CNTR only RESUME is followed; the interrupt masks do not matter to a device that polls.
- UsbDevice.Endpoint.StallSet: what a halt request writes to ISTR and to the bits of CNTR other than RESUME, as in the line above.
- UsbDevice.Endpoint.EndpointRequest: as UsbDevice.Endpoint.StallSet and UsbDevice.Endpoint.StallGet.
- UsbDevice.Endpoint.StallGet: GET_STATUS for the endpoint numbers 16, 17 and 18 reads bits of CNTR, ISTR and FNR in the source, which the model does not hold; it answers 0.
- Contents of descriptors, strings and the WinUSB block: constants of any bytes and any length below 256. A refused string leaves its type byte in the buffer; an accepted one is copied as a whole.
- IN requests whose handler does not set a length (DNLOAD, ABORT or CLRSTATUS sent as IN): modelled as the code does them, with the RAM behind the control buffer as part of the answer; what that RAM holds, and where the SRAM of the chip ends, is not.
- The buffer addresses in the packet memory, usb_pm_top and `_set_ep_rx_bufsize`: constants, since only endpoint 0 with 64 bytes is ever set up.
- The flash aliased at address 0: reads outside the flash return one fixed byte, writes there do nothing. A halfword store to an odd flash address does nothing; the processor would fault.
- A wrong key in the unlock sequence locks the flash until reset; the driver never sends one.
- Busy-waiting, the clock, GPIO, SysTick, the LED, the re-enumeration on D+, the vector table and the jump itself.
- SPI: the SRAM is an array of bytes, reads and writes of a non-empty range succeed. The two failure branches behind `spi_sram_read` in main.c cannot be reached then and are left out.
- Option bytes, protection, watchdog, reset by pin and SAFEWRITE: not in this configuration.
- The stack-pointer mask is written as divisions and remainders (`StackPointer` ties it to the mask), the fields of bmRequestType as whole bytes (`Usb.TypeFields` ties them to the fields); the exclusive or of words is defined on numbers bit by bit.
- The reboot flag across a DFU reset: `Dfu.Complete` reports the reset, the flag is part of `BootMain.Machine` only.
- Transfers.ControlWriteReassembles: packets of one transfer with nothing between them; `Reassembly.DeliveriesAreAssembled` covers every run.
- Transfers.CutWriteStalls: likewise, the short packet follows the whole ones directly.
- Endpoint register bits at a bus reset: the hardware clears them except for the completion flags, and the poll sets them again at once.
