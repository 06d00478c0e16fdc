# Verification model of a factory-test firmware's protocols

A factory-test program for a robot talks to a host over a serial line, drives
Wi-Fi and Bluetooth through system daemons, and asks an Android activity to
track a touch panel. This project models the parts of it that carry state or
parse bytes, and proves what they promise:

| file | component |
|---|---|
| `SsidCodec.dfy` | the escape codec for SSIDs and passwords and its quoting wrappers |
| `Transport.dfy` | serial frames, checksum, chunked reads and writes, hot plug |
| `PacketQueue.dfy` | the receive list between reading thread and event loop, with packet ownership |
| `BtLocks.dfy` | the four Bluetooth mutexes under every interleaving |
| `BtDiscovery.dfy` | discovery, scan mode, opening and closing of the adapter |
| `BtDevices.dfy` | the device table and the bond state |
| `BtMessages.dfy` | the Bluetooth message list, its teardown, and property buffers |
| `WifiTable.dfy` | the in-place tokeniser of the supplicant's network table |
| `NetdCommand.dfy` | commands printed for netd |
| `TouchView.dfy` | pointer tracking in the activity |
| `TouchReport.dfy` | the touch report, from points to frame |
| `Bytes.dfy`, `Decimal.dfy` | bytes, C strings, decimal numbers |

Objects the program updates in place are classes whose methods are proved
against a function on values; threads are atomic steps, one per section under a
mutex, and a theorem about them quantifies over all runs of those steps. `byte`
is an eight-bit vector, so its arithmetic wraps as the program's does.

Some results show where the code does less than it intends, and exactly when:

* `TruncationExact`: the last byte of a long SSID can shrink to its high nibble.
* `GetPwdFormat`: the 32-byte password buffer loses the closing quote when the
  escaped text has more than 29 characters.
* `GetBytesFromHex` rejects every non-empty digit string, since it asks for
  twice as many digits as there are.
* `MissedSignalExact`: the signal of Bluetooth teardown can be missed, so that the
  join waits for a message thread that only another message would wake.
* `AgreesExact`: cancelling a two-finger touch leaves a flag set; the next touch by
  another pointer then overruns the array of points.
* `DescriptorsLeak`, `PollingStops`: `find_serial_device` opens the directory and
  never closes it, so each poll costs a descriptor and hot plug ends with the last.
* `PopsEmptyExact`: `popFromRecvList` waits under an `if`, so a spurious wakeup
  makes it pop an empty list unless a packet arrives before it returns.

## Model

| member | source | states |
|---|---|---|
| SsidCodec.TruncationExact | lib/wifi/RWifiSsidPasswd.cpp:208-254 | for every byte sequence and room: which prefix the printer consumes (escapes starting at most at room-4), and that decoding gives that prefix back, the last byte cut to its high nibble exactly when its escape fills the room |
| SsidCodec.RoundTripExact | lib/wifi/RWifiSsidPasswd.cpp:127-254 | decoding the printed text gives the data back if and only if the last escape starts in time and leaves a character to spare, or belongs to byte 0 |
| SsidCodec.RoundTripShort | lib/wifi/RWifiSsidPasswd.cpp:65-101 | with the class's own sizes, every data whose escapes have at most 124 characters, and every 31 bytes, survives |
| SsidCodec.EscapeExact | lib/wifi/RWifiSsidPasswd.cpp:216-250 | the text printed for every byte, in characters: a letter for quote, backslash, escape, newline, return and tab, 32 to 127 as they are, every other byte as its two lower-case digits in base 16 |
| SsidCodec.PrintedPlain | lib/wifi/RWifiSsidPasswd.cpp:208-254 | printable text without quotes and backslashes is printed as it is, up to three characters short of the room |
| SsidCodec.Nibbles | lib/wifi/RWifiSsidPasswd.cpp:246-247 | the two digits are the byte's quotient and remainder by 16 |
| SsidCodec.LexRestExact | lib/wifi/RWifiSsidPasswd.cpp:133-200 | the parser's meaning of a plain character, of each escaped letter and sign, and of a stray backslash, which stands for nothing |
| SsidCodec.LexHexExact | lib/wifi/RWifiSsidPasswd.cpp:164-177 | after a hexadecimal escape: two digits, one digit or none, as numerals |
| SsidCodec.LexOctalExact | lib/wifi/RWifiSsidPasswd.cpp:178-192 | one to three octal digits as a numeral, taken mod 256 |
| SsidCodec.Hex2NumExact | lib/wifi/RWifiSsidPasswd.cpp:12-22 | the value of a digit of either case, and nothing for any other character |
| SsidCodec.DecodePrinted | lib/wifi/RWifiSsidPasswd.cpp:127-254 | parser after printer, byte by byte along the data |
| SsidCodec.ConsumedExact | lib/wifi/RWifiSsidPasswd.cpp:208-214 | the loop consumes byte i exactly when every escape up to it starts in time |
| SsidCodec.QuotedScan | lib/wifi/RWifiSsidPasswd.cpp:103-123 | an escape-aware scan finds the closing quote at the last character exactly when both quotes fit, and finds none otherwise |
| SsidCodec.ScanPrinted | lib/wifi/RWifiSsidPasswd.cpp:208-254 | no quote inside printed text, whole or cut anywhere, closes it |
| SsidCodec.RWifiSsidPasswd.TakeItem | lib/wifi/RWifiSsidPasswd.cpp:133-200 | the parser's switch takes exactly one item of the escape grammar, with no read past the NUL |
| SsidCodec.RWifiSsidPasswd.DecodeItem | lib/wifi/RWifiSsidPasswd.cpp:133-200 | one round of the loop stores the item's byte, if it has one, and nothing else |
| SsidCodec.RWifiSsidPasswd.ConvertToBytes | lib/wifi/RWifiSsidPasswd.cpp:127-204 | on every C string it ends and writes the first maxlen bytes the grammar gives, and nothing else |
| SsidCodec.RWifiSsidPasswd.SnprintfHex | lib/wifi/RWifiSsidPasswd.cpp:244-248 | the four characters of a hex escape, the last one lost when only four places are left |
| SsidCodec.RWifiSsidPasswd.PutEscape | lib/wifi/RWifiSsidPasswd.cpp:216-250 | the printer's switch stores the escape of one byte, cut in that one case only |
| SsidCodec.RWifiSsidPasswd.ConvertToString | lib/wifi/RWifiSsidPasswd.cpp:208-254 | the C string left in the buffer is the printed text, and nothing after txt[maxlen] changes |
| SsidCodec.RWifiSsidPasswd.SnprintfQuoted | lib/wifi/RWifiSsidPasswd.cpp:109-109 | the quoted text, cut to the buffer |
| SsidCodec.RWifiSsidPasswd.GetStringFromBytes | lib/wifi/RWifiSsidPasswd.cpp:93-101 | null for null, else the printed text in the 128-byte string; plain text stands there as it is |
| SsidCodec.RWifiSsidPasswd.GetBytesFromAscii | lib/wifi/RWifiSsidPasswd.cpp:65-72 | null for null, else the decoded bytes and their number |
| SsidCodec.RWifiSsidPasswd.GetSSIDFormat | lib/wifi/RWifiSsidPasswd.cpp:103-112 | null exactly for the empty SSID; never cut; the scan closes at the last character; the text between the quotes decodes to the SSID iff it fits, and is the SSID itself when that is plain |
| SsidCodec.RWifiSsidPasswd.GetPwdFormat | lib/wifi/RWifiSsidPasswd.cpp:114-123 | keeps its closing quote iff the escaped password has at most 29 characters; the escaped text of a plain password is the password |
| SsidCodec.RWifiSsidPasswd.HexStr2Bin | lib/wifi/RWifiSsidPasswd.cpp:36-51 | succeeds iff 2*len hexadecimal digits are there, and then stores their bytes |
| SsidCodec.RWifiSsidPasswd.GetBytesFromHex | lib/wifi/RWifiSsidPasswd.cpp:74-91 | for every string that does not run beyond the buffer: succeeds iff it is empty, 0x or 0X, and else leaves the length alone |
| Transport.FrameRoundTrip | transport.cpp:115-261 | a serialised message is accepted iff it is a command, and then parses to itself |
| Transport.FrameLayout | transport.cpp:115-140 | the frame byte by byte: header, type, command, length, payload, and a last byte that makes the XOR zero |
| Transport.ParsedInjective | transport.cpp:213-261 | an accepted buffer is the serialisation of its message, so parsing loses nothing |
| Transport.DetectsOneByte | transport.cpp:213-261 | replacing any one byte of an accepted frame makes it unacceptable |
| Transport.DetectsTwoBytes | transport.cpp:213-261 | replacing two payload, command or checksum bytes goes unnoticed iff both change by the same bits |
| Transport.DetectsLength | transport.cpp:213-240 | no accepted frame is accepted cut short or followed by more bytes |
| Transport.FrameCut | transport.cpp:115-140 | no proper prefix of a serialised message is accepted |
| Transport.AcceptsChecksum | transport.cpp:67-77 | the XOR of body and checksum byte is zero iff the byte is the checksum |
| Transport.Deliver | transport.cpp:115-264 | one event over an idle line through arbitrary chunks: the receiver queues exactly the message sent, iff the write was complete and it is a command |
| Transport.DeliverAll | transport.cpp:115-264 | any number of events with idle gaps: the receiver queues exactly the commands written completely, in order; all of them unless a write failed |
| Transport.SerialRead | serial.cpp:116-135 | in whatever chunks, it collects the bytes before the gap up to the buffer's size |
| Transport.SerialWrite | serial.cpp:137-160 | in whatever chunks, it sends everything; or a write failed, and what had not left the machine may be discarded |
| Transport.Transport.GetChecksum | transport.cpp:67-77 | the loop computes the XOR of header, type, command, length and payload |
| Transport.Transport.FillFrame | transport.cpp:120-137 | the buffer holds exactly the frame |
| Transport.Transport.TransportWrite | transport.cpp:115-140 | when it refuses and sends nothing, and otherwise that the frame goes out up to a write error |
| Transport.Transport.ResponseEvent | transport.cpp:156-165 | the same for a message built from its parts |
| Transport.Transport.CheckPacket | transport.cpp:203-261 | the chain of checks accepts iff length, header, type, length byte and XOR are right, and builds the parsed message |
| Transport.Transport.ReadData | transport.cpp:177-264 | a read queues exactly the parsed message of an acceptable burst and drops anything else |
| Transport.Transport.PopFromRecvList | transport.cpp:60-64 | takes the first message |
| Transport.Transport.OpenDevice | transport.cpp:311-322 | open on the node iff the descriptor is positive |
| Transport.Transport.CloseDevice | transport.cpp:324-335 | unmounted, and gives back the one descriptor held |
| Transport.Transport.KnowDevice | transport.cpp:337-349 | whether the node is the open one |
| Transport.FirstTtyExact | transport.cpp:361-369 | the entry taken is the one that begins with ttyUSB and has no such entry before it; none iff there is no such entry |
| Transport.PollExact | transport.cpp:358-389 | one poll, in terms of the listing: kept with its descriptor if still first, else the first one opened if that succeeds, else unmounted |
| Transport.Transport.FindSerialDevice | transport.cpp:351-390 | the same for the driver's fields, whatever is listed; open iff a name is stored; every serial descriptor but the current one has been given back; one directory descriptor more is held whenever the directory could be read |
| Transport.HotPlugHistory | transport.cpp:351-390 | over every run of polls: the open device was opened by some poll, and every readable listing since has it as the first ttyUSB entry; a last listing without one means unmounted; a device still first keeps its descriptor |
| Transport.DescriptorsLeak | transport.cpp:358-390 | over every run of polls, the descriptors held are the device's and one for every poll that could read the directory |
| Transport.NoLeakExact | transport.cpp:358-390 | no descriptor leaks iff no poll could read the directory |
| Transport.PollingStops | transport.cpp:358-403 | under any limit on descriptors only that many polls ever read the directory, and after the limit is used up the device state never changes again |
| PacketQueue.ConservationAndOwnership | transport.cpp:46-113 | every interleaving with any number of reading threads, unless the consumer returns from a spurious wakeup to an empty list: handled, in hand and queued make up the accepted packets in order; each packet settles once, by its checksum; struct and payload are each freed at most once, and are free iff the packet was rejected or is through callback and release |
| PacketQueue.RunKeeps | transport.cpp:46-261 | the invariants behind it hold in every such run |
| PacketQueue.PopsEmptyExact | transport.cpp:53-65 | the consumer pops an empty list iff it returns from a spurious wakeup and nothing was pushed in between |
| PacketQueue.ArrivalOrder | transport.cpp:249-261 | while one thread reads all frames, they are accepted in order of arrival |
| PacketQueue.OvertakingReaders | transport.cpp:324-335 | with two reading threads a later frame can be accepted first |
| PacketQueue.SpuriousWakeupPopsEmpty | transport.cpp:53-65 | a run of three steps that pops the empty list |
| PacketQueue.FreedCount | transport.cpp:79-113 | how often a block is free, from the rejected and released packets |
| PacketQueue.BlocksCount | transport.cpp:79-104 | structs and payloads of different packets are different blocks |
| PacketQueue.ConservedKeeps | transport.cpp:46-65 | a step keeps the order and the consumer's state iff it is not a return to an empty list |
| PacketQueue.OwnedKeeps | transport.cpp:142-154 | a packet is freed only at rejection or after its callback |
| PacketQueue.SortedKeeps | transport.cpp:249-261 | every packet that arrives is with one reader, accepted or rejected |
| BtLocks.ProgramObeys | lib/bluetooth/RBluetoothManager.cpp:84-372 | whatever the branches, loop counts and callbacks, every thread takes the mutexes in the order manager, properties, devices, list, and never sleeps with one held |
| BtLocks.ClientObeys | lib/bluetooth/RBluetoothManager.cpp:84-235 | the same for each call of the client thread, teardown included |
| BtLocks.HandlerObeys | lib/bluetooth/RBluetoothManager.cpp:255-325 | the same for each handler of the message thread |
| BtLocks.NoCycle | lib/bluetooth/RBluetoothManager.cpp:84-372 | no reachable state of any number of threads has a cycle of threads blocked on mutexes; none re-locks its own |
| BtLocks.Progress | lib/bluetooth/RBluetoothManager.cpp:84-372 | whenever a thread is blocked on a mutex, some thread that holds one can act |
| BtLocks.RunKeeps | lib/bluetooth/RBluetoothManager.cpp:84-372 | over every schedule, each mutex has one holder and the holders keep the order |
| BtLocks.WantsLater | lib/bluetooth/RAdapterProperties.cpp:59-198 | a thread that is waited for and waits itself wants a later mutex |
| BtLocks.PathClimbs | lib/bluetooth/RBluetoothManager.cpp:84-372 | along a path of waiting threads the wanted mutexes climb |
| BtLocks.HolderActs | lib/bluetooth/RRemoteDevices.cpp:135-330 | from a blocked thread, following holders ends at one that can act |
| BtDiscovery.DiscoverySafety | lib/bluetooth/RAdapterProperties.cpp:107-203 | every run: OFF implies idle; outside manager sections open iff ON; hardware discovery starts only while ON and on a request not withdrawn since |
| BtDiscovery.CallsExact | lib/bluetooth/RAdapterProperties.cpp:59-203 | over every run, what each step asks of the hardware, in order, from what went before alone: the timeout and scan mode last reported, whether switched on, and whether a search is wanted |
| BtDiscovery.StateFromHistory | lib/bluetooth/RAdapterProperties.cpp:59-203 | over every run, each field is what the steps last said |
| BtDiscovery.RunKeeps | lib/bluetooth/RAdapterProperties.cpp:107-203 | every run: the adapter is searching iff the client's last effective request was to search |
| BtDiscovery.DiscoveryRestarts | lib/bluetooth/RAdapterProperties.cpp:107-133 | a wanted search is restarted when discovery stops or the adapter turns discoverable |
| BtDiscovery.NotificationExact | lib/bluetooth/RAdapterProperties.cpp:59-198 | whatever a notification carries, it neither switches the adapter nor starts or ends a search, and it starts hardware discovery iff ON, searching and a discoverable scan mode is among the properties |
| BtDiscovery.CloseIsFiveSteps | lib/bluetooth/RBluetoothManager.cpp:151-165 | the state a whole closeBt reaches from an open one |
| BtDiscovery.WantedSnoc | lib/bluetooth/RAdapterProperties.cpp:164-183 | how each step changes whether a search is wanted |
| BtDiscovery.RAdapterProperties.AdapterPropertyChanged | lib/bluetooth/RAdapterProperties.cpp:59-105 | the loop applies the listed properties in order and makes their calls in order |
| BtDiscovery.RAdapterProperties.StartSearch | lib/bluetooth/RAdapterProperties.cpp:164-173 | asks for the timeout and then for discoverable mode iff ON and not searching, and is then searching |
| BtDiscovery.RAdapterProperties.OnBluetoothReady | lib/bluetooth/RAdapterProperties.cpp:150-162 | asks for a scan mode by the timeout, and for the timeout, iff ON and without scan mode |
| BtDiscovery.RAdapterProperties.PropertyChanged | lib/bluetooth/RAdapterProperties.cpp:63-103 | one property; being connectable while ON asks for the timeout and then for discoverable mode |
| BtDiscovery.RBluetoothManager.OpenBt | lib/bluetooth/RBluetoothManager.cpp:128-149 | uninterrupted, it is the two steps of the state machine; its HAL call and the value returned |
| BtDiscovery.RBluetoothManager.CloseBt | lib/bluetooth/RBluetoothManager.cpp:151-165 | uninterrupted, it goes through all five steps, cancels a search that is on, and issues its HAL calls in that order, the disabling last |
| BtDiscovery.RBluetoothManager.HandleAdapterState | lib/bluetooth/RBluetoothManager.cpp:255-271 | the enable flag, and onBluetoothReady with its calls when ON |
| BtDevices.CompareAddr | lib/bluetooth/RRemoteDevices.cpp:9-26 | orders addresses as 48-bit numbers, zero iff equal, so the key order is total and strict |
| BtDevices.ValueOrder | lib/bluetooth/RRemoteDevices.cpp:11-19 | the first differing byte decides which number is smaller |
| BtDevices.ValueInjective | lib/bluetooth/RRemoteDevices.cpp:9-20 | different addresses are different numbers |
| BtDevices.BondFromHistory | lib/bluetooth/RRemoteDevices.cpp:285-319 | after any events, bonded iff the last event that is neither a lookup nor BONDING bonded some device successfully and no BONDING event names it since; mBondDevice is always null or a device of the table |
| BtDevices.HistoryHolds | lib/bluetooth/RRemoteDevices.cpp:285-312 | the invariant behind it: which device mBondDevice is, and when it is bonded |
| BtDevices.HistoryStep | lib/bluetooth/RRemoteDevices.cpp:285-312 | one event keeps the invariant |
| BtDevices.StatesFromHistory | lib/bluetooth/RRemoteDevices.cpp:104-319 | after any events the table holds exactly the devices named, each in the state of its last bond event |
| BtDevices.InsertKey | lib/bluetooth/RRemoteDevices.cpp:156-165 | adding a key adds only that one |
| BtDevices.InsertOrdered | lib/bluetooth/RRemoteDevices.cpp:156-165 | and keeps the keys in order |
| BtDevices.RRemoteDevices.GetDevice | lib/bluetooth/RRemoteDevices.cpp:141-154 | the linear search returns the device of that address, or null iff there is none |
| BtDevices.RRemoteDevices.AddDevice | lib/bluetooth/RRemoteDevices.cpp:156-165 | a new unbonded device under its address, the others untouched, keys in order |
| BtDevices.RRemoteDevices.FindOrAdd | lib/bluetooth/RRemoteDevices.cpp:290-292 | finds the device or adds it |
| BtDevices.RRemoteDevices.SetBondState | lib/bluetooth/RRemoteDevices.cpp:297-307 | writing one device's state changes that entry of the table alone |
| BtDevices.RRemoteDevices.SetBondDevice | lib/bluetooth/RRemoteDevices.cpp:302-308 | mBondDevice stays null or a device of the table |
| BtDevices.RRemoteDevices.BondStateChange | lib/bluetooth/RRemoteDevices.cpp:285-312 | the objects go exactly through the step of the table |
| BtDevices.RRemoteDevices.DeviceFound | lib/bluetooth/RRemoteDevices.cpp:104-116 | marks this device and no other as found and leaves every bond state as it was |
| BtDevices.RRemoteDevices.IsBond | lib/bluetooth/RRemoteDevices.cpp:314-319 | whether the table is bonded |
| BtMessages.MessageConservation | lib/bluetooth/RBluetoothManager.cpp:230-372 | every interleaving with spurious wakeups and teardown: processed in sending order; the worker never sleeps on a message; processed, in hand, drained and queued make up what was sent; none deleted twice, all deleted in the end |
| BtMessages.BuffersFreedOnce | lib/bluetooth/RMessage.h:35-67 | in every such interleaving each block of each message's property lists is freed at most once, is free iff its message is deleted, and all are free when the destructor has emptied the list |
| BtMessages.FreedOnce | lib/bluetooth/RMessage.h:55-67 | how often a block is freed by the deletion of messages that share none |
| BtMessages.RunKeeps | lib/bluetooth/RBluetoothManager.cpp:230-372 | the invariant behind it |
| BtMessages.MissedSignalExact | lib/bluetooth/RBluetoothManager.cpp:113-119 | once teardown has cleared the flag, its signal can be missed iff the worker has tested the flag, not yet locked, and the list is empty |
| BtMessages.MissedSignalReachable | lib/bluetooth/RBluetoothManager.cpp:327-335 | that state is reached before any message is sent |
| BtMessages.SafeForever | lib/bluetooth/RBluetoothManager.cpp:237-253 | in every other state the worker never sleeps after the signal, whatever happens |
| BtMessages.Heap.MallocCopy | lib/bluetooth/RMessage.h:48-51 | a new block with a copy of the bytes |
| BtMessages.Heap.Free | lib/bluetooth/RMessage.h:61-61 | gives one live block back |
| BtMessages.Properties.ReleaseProps | lib/bluetooth/RMessage.h:55-67 | frees every owned block once and nothing else |
| BtMessages.Properties.CopyProps | lib/bluetooth/RMessage.h:40-53 | replaces the contents by deep copies in blocks never used before, the old ones freed, other blocks unchanged |
| BtMessages.RMessage.SetProps | lib/bluetooth/RBluetoothListener.cpp:29-36 | a message of adapter properties owns copies in new blocks only |
| BtMessages.RMessage.SetRemoteProps | lib/bluetooth/RBluetoothListener.cpp:38-48 | the same for a remote device |
| BtMessages.RMessage.Destroy | lib/bluetooth/RMessage.h:35-38 | deleting a message frees the blocks of both lists, each once, and nothing else |
| WifiTable.TableRoundTrip | lib/wifi/RWifiInfo.cpp:77-151 | for any rows under a header, empty fields allowed, the table maps each number to SSID and status of its last row, CURRENT over DISABLED over ENABLED |
| WifiTable.TableFromRows | lib/wifi/RWifiInfo.cpp:77-151 | from rows to table, number by number: SSID of the last row with it, and the status that row's flags stand for |
| WifiTable.IsNewWifiFromRows | lib/wifi/RWifiInfo.cpp:41-52 | from rows to answer: the smallest number with the SSID, -1 iff there is none |
| WifiTable.CurrentFromRows | lib/wifi/RWifiInfo.cpp:54-66 | from rows to answer: the SSID of the smallest number whose last row has a name and the flag [CURRENT], none iff there is no such number |
| WifiTable.FirstWithSpec | lib/wifi/RWifiInfo.cpp:45-51 | the first entry in key order is the smallest number |
| WifiTable.LoadRows | lib/wifi/RWifiInfo.cpp:102-148 | later rows replace earlier ones |
| WifiTable.MeaningExact | lib/wifi/RWifiInfo.cpp:102-148 | later rows replace earlier ones with their number |
| WifiTable.RowFields | lib/wifi/RWifiInfo.cpp:107-141 | a printed row reads back as its number, SSID and the status its flags stand for, though a last empty field is dropped |
| WifiTable.StatusExact | lib/wifi/RWifiInfo.cpp:128-138 | CURRENT iff that flag stands anywhere in the column, DISABLED iff that one does and the other does not, ENABLED iff neither does |
| WifiTable.ColumnsExact | lib/wifi/RWifiInfo.cpp:126-141 | which column is what: number, SSID, address, flags |
| WifiTable.MapOfSorted | lib/wifi/RWifiInfo.cpp:142-142 | an ordered vector is the map of its entries |
| WifiTable.Add | lib/wifi/RWifiInfo.cpp:142-142 | adding replaces, keeps key order and is the update of the map |
| WifiTable.ScanStep | lib/wifi/RWifiInfo.cpp:107-120 | one round of the tokeniser keeps: recorded fields are whole strings, and fields found so far plus fields of the rest are the line's |
| WifiTable.CutSplits | lib/wifi/RWifiInfo.cpp:104-120 | a NUL over a separator leaves what precedes it and what follows it as two strings |
| WifiTable.StrChr | lib/wifi/RWifiInfo.cpp:104-116 | the first place of a character, none iff it is not there |
| WifiTable.CutAt | lib/wifi/RWifiInfo.cpp:104-118 | what strchr and the NUL make of buffer and pointer |
| WifiTable.RecordField | lib/wifi/RWifiInfo.cpp:110-119 | one round of the inner loop on array and buffer |
| WifiTable.TokeniseLine | lib/wifi/RWifiInfo.cpp:107-120 | stays inside its array iff the line has at most four fields; then the field pointers name the line's fields as C strings; never writes beyond the line |
| WifiTable.ReadConfig | lib/wifi/RWifiInfo.cpp:107-141 | the entry of one line, if it has two to four fields |
| WifiTable.TakeLine | lib/wifi/RWifiInfo.cpp:102-148 | one round of the outer loop: the entry of the first line, and the rest intact |
| WifiTable.CopyAndSkipHeader | lib/wifi/RWifiInfo.cpp:89-99 | the copied buffer holds, after the header, the rest of the reply |
| WifiTable.RWifiInfo.LoadConfiguredNetworks | lib/wifi/RWifiInfo.cpp:77-151 | for every reply: the tokeniser stays inside its array and reads only what is there iff every line has two to four fields, and then computes the specified table; empty without a reply or a header line |
| WifiTable.RWifiInfo.IsNewWifi | lib/wifi/RWifiInfo.cpp:41-52 | then the loop returns the number of the first entry with the SSID |
| WifiTable.RWifiInfo.GetCurrentSSID | lib/wifi/RWifiInfo.cpp:54-66 | then the SSID of the first entry that is current and has one, none iff there is none |
| Decimal.AtoiItoa | lib/wifi/RWifiInfo.cpp:126-126 | a number printed in decimal reads back as itself |
| Decimal.AtoiExact | lib/wifi/RWifiInfo.cpp:126-126 | white space, a sign or none, digits, and whatever follows them, read as the number |
| NetdCommand.CommandInvertible | lib/wifi/RNetdConnector.cpp:116-163 | for any non-empty list of quote-free arguments, a quote-aware split of the command gives them back, after "0" iff none leads with a number |
| NetdCommand.CommandInjective | lib/wifi/RNetdConnector.cpp:127-163 | commands that print alike are alike |
| NetdCommand.NumberedExact | lib/wifi/RNetdConnector.cpp:127-132 | the sequence number is added iff no number leads the first argument: white space, a sign or none, a digit |
| NetdCommand.QuotesExact | lib/wifi/RNetdConnector.cpp:149-154 | only arguments with a space are quoted, each with two quotes |
| NetdCommand.SplitJoin | lib/wifi/RNetdConnector.cpp:134-160 | splitting undoes printing |
| NetdCommand.JoinSnoc | lib/wifi/RNetdConnector.cpp:148-158 | what one round of the loop appends |
| NetdCommand.RCommandInvertible | lib/wifi/RNetdConnector.cpp:21-31 | a command of RCommand keeps its whole number, gets no second one, and splits into number, name and arguments |
| NetdCommand.BuildCommand | lib/wifi/RNetdConnector.cpp:127-163 | the loop builds the printed arguments, and fails iff some argument contains a double quote |
| NetdCommand.RNetdConnector.DoCommand | lib/wifi/RNetdConnector.cpp:116-177 | writes exactly the printed command, or nothing and -1 |
| NetdCommand.RCommand.AppendArg | lib/wifi/RNetdConnector.cpp:46-59 | keeps 31 characters of an argument and refuses the 33rd argument |
| NetdCommand.RCommand.constructor | lib/wifi/RNetdConnector.cpp:21-31 | the first two arguments are number and command |
| TouchView.StreamExact | app/src/com/avatarmind/factorycommand/TouchView.java:83-135 | over every stream, the counter equals the flags all along iff every event fits the flags it finds |
| TouchView.AgreesExact | app/src/com/avatarmind/factorycommand/TouchView.java:83-158 | over every gesture stream the counter agrees with the flags all along iff every first pointer is, of the pointers left behind by a cancelled gesture, the only one |
| TouchView.StepExact | app/src/com/avatarmind/factorycommand/TouchView.java:83-135 | an event keeps the agreement iff: a first pointer finds no other flag, a further one its own clear, a leaving one its own set |
| TouchView.FlagsAreOnScreen | app/src/com/avatarmind/factorycommand/TouchView.java:83-158 | as long as that holds, the flags are the pointers on the screen and those left behind, and the counter is their number |
| TouchView.CoordsExact | app/src/com/avatarmind/factorycommand/TouchView.java:116-119 | a pointer that goes down is stored with the event's coordinates, and no event changes those of another |
| TouchView.CoordsFromHistory | app/src/com/avatarmind/factorycommand/TouchView.java:83-135 | over every stream, a pointer's coordinates are those of the event in which it last went down |
| TouchView.DownCoordsExact | app/src/com/avatarmind/factorycommand/TouchView.java:149-155 | the coordinates listed are those of the flagged pointers, each once, in ascending order of their numbers |
| TouchView.TouchPointsExact | app/src/com/avatarmind/factorycommand/TouchView.java:83-158 | over every gesture stream in which counter and flags agree: the points are, in ascending order of the pointers on the screen or left behind, where each last went down |
| TouchView.CurDownExact | app/src/com/avatarmind/factorycommand/TouchView.java:112-127 | whether a gesture is under way |
| TouchView.SingleCancelsLeaveNone | app/src/com/avatarmind/factorycommand/TouchView.java:120-130 | it holds throughout when gestures are cancelled with one pointer only |
| TouchView.FitsIffNoneLeft | app/src/com/avatarmind/factorycommand/TouchView.java:109-130 | events fit the flags they find iff the condition on the stream holds |
| TouchView.CancelLeavesFlag | app/src/com/avatarmind/factorycommand/TouchView.java:120-130 | a cancel of two pointers leads to a counter of 1 with two flags |
| TouchView.DownExact | app/src/com/avatarmind/factorycommand/TouchView.java:109-119 | the case of a first pointer |
| TouchView.DownUpdate | app/src/com/avatarmind/factorycommand/TouchView.java:109-130 | how writing one flag changes the number of flags |
| TouchView.TouchView.PointEventChange | app/src/com/avatarmind/factorycommand/TouchView.java:83-135 | the fields go exactly through the step of the view; a pointer that goes down is flagged and has the event's coordinates |
| TouchView.TouchView.GetTouchPoints | app/src/com/avatarmind/factorycommand/TouchView.java:142-158 | fills every slot in id order iff counter and flags agree; which array exception or null slots follow otherwise |
| TouchReport.ReportRoundTrip | factory_test_main.cpp:934-951 | for at most 62 points, reading the frame gives the points back in order iff every coordinate is at most 65535 |
| TouchReport.ReportLayout | factory_test_main.cpp:934-951 | the frame on the wire: 0xC0, 0x10, 0x26, its length, the number of points, the points |
| TouchReport.DecodeEncode | factory_test_main.cpp:934-947 | decoding gives the low sixteen bits of every coordinate, in order |
| TouchReport.EncodeAt | factory_test_main.cpp:937-944 | where each point's bytes stand, four after four: x before y, the high byte first |
| TouchReport.BytesExact | factory_test_main.cpp:941-944 | the two bytes of a coordinate as quotient and remainder by 256 |
| TouchReport.EncodeCons | factory_test_main.cpp:936-947 | points are serialised front to back, four bytes each |
| TouchReport.LowsExact | factory_test_main.cpp:939-944 | sixteen bits keep all points iff all coordinates are in range |
| TouchReport.OneReportPerTest | factory_test_main.cpp:918-996 | over every order of the steps that arming and touching make, no more reports than armed tests |
| TouchReport.ReportedExact | factory_test_main.cpp:920-928 | a touch is reported iff the last event before it armed a test, at most five seconds earlier |
| TouchReport.TouchCallback.PutPoint | factory_test_main.cpp:939-944 | the four bytes of one point, the rest untouched |
| TouchReport.TouchCallback.Fill | factory_test_main.cpp:934-947 | the loop stays inside 250 bytes and leaves the report in the array, for a negative number too |
| TouchReport.TouchCallback.Touch | factory_test_main.cpp:918-951 | it is the touch step of the flags: one report, armed and in time, else none; always disarmed afterwards |

## Left out

- Allocation failure: packets, messages and formatted strings are taken as allocated.
- Devices and the system: opening, selecting, reading and writing appear as nondeterministic results or parameters; termios, sysfs, popen, sleeping and logging are not part of this model. A write of some bytes gives a positive count or an error.
- Transport.Transport.FindSerialDevice: takes opening as one step that gives a positive descriptor or fails; what a failed `serial_init` does with its descriptor is not modelled. Entries longer than 26 characters, which overflow the 32-byte name, are excluded.
- PacketQueue.ConservationAndOwnership: says nothing about runs in which the consumer pops an empty list (PacketQueue.PopsEmptyExact says which those are), since the code is undefined there. One consumer is assumed.
- Thread creation, joining and detaching, and when a reading thread ends after its device is gone: only safety is stated.
- The classes stand for objects of one thread at a time; interleavings are stated on values, section by section. Strings and payloads passed in are values, so aliasing with the object's own buffers is not captured.
- `KeyedVector` is a key-ordered sequence (networks) or its ordered keys with a map (devices); its binary search is not modelled.
- The lock programs over-approximate: every branch, loop count and number of callbacks is allowed. Mutexes inside the HAL are not modelled. `RBluetoothManager::cancelBond` checks and then acts in two sections, and nothing says these are atomic.
- The found flag of a new device starts as false here; the constructor leaves it unset.
- `Properties::operator=` copies pointers and is not used; it is not modelled. Adapter name, address, class and UUID properties count as other properties.
- `atoi` and `strtol` are read as unbounded; numbers beyond an int are not modelled.
- The parsers of netd and wpa_supplicant are not part of this model; a quote-aware splitter and a row printer stand in for them.
- WifiTable.RWifiInfo.LoadConfiguredNetworks: says only that it leaves its array, not what follows, when a line has fewer than two or more than four fields.
- SsidCodec.RWifiSsidPasswd.GetBytesFromHex: digit strings whose first 258 characters are all hexadecimal are excluded, since the code writes beyond its buffer for them.
- TouchReport.TouchCallback.Touch: more than 62 points are excluded, since the 250-byte array does not hold them.
- TouchView.TouchView.PointEventChange: coordinates are reals; drawing and the listener are not modelled.
- `getNewEvent` without a callback, the stress-test build, network variables, RSSI, WEP and WPA settings, DHCP, camera and binder forwarding, `lib/src/robot_fac.c`, `fac_can.cpp`, `handle_event` and the remaining hardware handlers, and the Android activities: forwarding, tables or device I/O that would only add easy members.
