# GattSnatcher, modelled in Dafny

GattSnatcher is ESP32 firmware with three roles, plus Python scripts that post-process what the firmware records.

- The **scanner** receives raw HCI LE Advertising Report events from the Bluetooth controller.
  - A ring of ten packet slots admits them.
  - It decodes each event into an `LeAdvertisingReport`.
  - It keeps every report of a packet that has a connectable report, as a 16-byte binary record in flash.
  - It forwards to the UART, as a CSV line, only the reports whose address a TTL cache (`MacCache`) admits.
- The **interrogator** reads those CSV lines back into interrogation requests and queues them.
  - It hands each request to the lowest free profile slot among three.
  - Each slot runs a GATT client state machine: open, MTU, service search, characteristic discovery, reads of the read-only characteristics, and disconnect.
  - It writes each finished profile as JSON to the console and to flash.
  - A timeout task restarts the chip when every slot is stuck. A monitor task purges expired reads and releases finished slots.
- The **collector** decodes the LE Advertising Report event (Bluetooth Core Specification v5.4, Vol 4, Part E, section 7.7.65.2) in a grouped layout: every event type, then every address type, and so on.
  - That section lists each report field as an array indexed by report. The collector reads the arrays one after the other. The scanner's decoder reads each report's fields together, one report after the other. The two readings agree for a one-report event and differ for more (`CollectorAd.OneReportAgrees`, `CollectorAd.TwoReportsDisagree`).
  - It picks each report's local name out of its AD structures.
  - It sends one binary frame per report over UART.
- The **Python scripts** decode the 16-byte records into CSV rows. They render UUIDs and property bytes as text, turn a GATT profile into a set of `service:characteristic:properties:value` features, and compare profiles by Jaccard similarity.

The model has one Dafny module per core source file. `Bytes` (bytes, little-endian numbers) and `Text` (decimal and hex rendering, `atoi`, `%x` scanning, splitting and joining) are shared helpers.

Code that changes state in place becomes a class with `modifies` clauses. Each of its methods is proved against a pure function of the old state:

- `LeAdvertisingReport`, filled in place by the decoder;
- `MacCache.Cache`;
- the scanner's packet ring and worker;
- the interrogator with its three profile slots and request queue;
- the file, UART and console sinks;
- the collector's worker.

Code that only computes, the Python helpers and the formatters, becomes functions with lemmas about them.

Radio, stack and RTOS calls that the code makes are recorded as a sequence of `Action` values. The outcomes the code receives from them (an accepted open, an `fwrite` count, a discovery answer) are parameters. The model therefore states what is asked of the stack, in order, and what the code does with each possible answer.

## Model

| member | source | states |
|---|---|---|
| Definitions.LeAdvertisingReport.IsAdvertisingReportConnectable | GattSnatcher/main/struct_and_definitions.cpp:4-14 | true exactly when some report below `num_reports` has event type 0x00 or 0x01; entries past `num_reports` play no part |
| Definitions.AnyConnectable | GattSnatcher/main/struct_and_definitions.cpp:6-13 | the same test on a sequence of reports: true iff one of them is ADV_IND or ADV_DIRECT_IND, so false for none and for types 0x02-0x04 only |
| Definitions.LeAdvertisingReport.constructor | GattSnatcher/main/struct_and_definitions.h:50-54 | a fresh report has room for 25 reports and holds none |
| HciEventParser.StoredLength | GattSnatcher/main/hci_event_parser.cpp:85-87 | the stored data length is at most 31 and at most the wire length, and equals the wire length when that fits |
| HciEventParser.ReportBody | GattSnatcher/main/hci_event_parser.cpp:60-95 | one report read field after field: the textual address is the wire bytes reversed, in lower-case hex pairs; the cursor moves past exactly 10 plus the stored length bytes |
| HciEventParser.ReportsFrom | GattSnatcher/main/hci_event_parser.cpp:60-95 | the walk over `k` reports yields at most `k` reports, all `k` exactly when it reaches the end, and its end lies past the start and within the packet |
| HciEventParser.ReportsWellDecoded | GattSnatcher/main/hci_event_parser.cpp:60-95 | every report the walk yields is well formed: a six-byte raw address, its reversed hex text, at most 31 data bytes matching the stored length, a signed-byte RSSI |
| HciEventParser.WalkStaysFailed | GattSnatcher/main/hci_event_parser.cpp:60-95 | once the walk fails it stays failed and gains no further report |
| HciEventParser.Decode | GattSnatcher/main/hci_event_parser.cpp:13-98 | full status table: `ESP_ERR_INVALID_STATE` iff the buffer is empty; `ESP_ERR_NOT_FOUND` iff byte 0, 1 or 3 is not 0x04, 0x3E, 0x02 (byte 2 is never looked at); the timestamp is set iff the markers match; `ESP_FAIL` iff the count is outside 1..25; the count is stored iff it is in range; `ESP_OK` means all `count` reports were read |
| HciEventParser.CheckedWalkRefines | GattSnatcher/main/hci_event_parser.cpp:60-95 | the bounds-checked walk fails wherever the unchecked one does, and when it succeeds both read the same reports to the same end |
| HciEventParser.CheckedReportRefines | GattSnatcher/main/hci_event_parser.cpp:60-95 | a report that fits under the checks fits without them and reads the same |
| HciEventParser.AsWrittenOverrunsAreRefused | GattSnatcher/main/hci_event_parser.cpp:60-95 | every packet on which the decoder as written reads past the end gets `ESP_ERR_INVALID_SIZE` from the model; whenever the model reports anything else, the decoder as written computes the same outcome |
| HciEventParser.AsWrittenReadsPastEnd | GattSnatcher/main/hci_event_parser.cpp:60-95 | a one-report packet that lacks its RSSI byte makes the decoder as written read past the end, and the model refuses it |
| HciEventParser.SingleReportEvent | GattSnatcher/main/hci_event_parser.cpp:13-98 | any well-formed one-report event decodes to exactly that report: its types, reversed lower-case address, raw address, data and signed RSSI |
| HciEventParser.DecodeExample | GattSnatcher/main/hci_event_parser.cpp:13-98 | `04 3E 0C 02 01 00 00 FF EE DD CC BB AA 00 BF` decodes to one report with event type 0, address "aa:bb:cc:dd:ee:ff" and RSSI -65 |
| HciEventParser.FormatExample | GattSnatcher/main/hci_event_parser.cpp:73-74 | the wire address FF EE DD CC BB AA prints as "aa:bb:cc:dd:ee:ff" |
| HciEventParser.FillAdvReport | GattSnatcher/main/hci_event_parser.cpp:13-98 | the method writes into the report exactly what `Decode` says: the status, the timestamp when stamped, the count when in range, the decoded reports from slot 0, and leaves the other slots as they were; this is the bounds-checked decoder, the corrected half of the first finding |
| HciEventParser.FillReports | GattSnatcher/main/hci_event_parser.cpp:60-95 | the report loop succeeds iff the checked walk does, writes its reports in order and leaves the later slots untouched |
| HciEventParser.ReadReport | GattSnatcher/main/hci_event_parser.cpp:62-95 | one report read byte by byte, each read after its end-of-buffer check, is the checked `ReportAt` |
| HciEventParser.StrTok | GattSnatcher/main/hci_event_parser.cpp:111-139 | `strtok_r` on ',' returns a non-empty comma-free token and a strictly shorter rest |
| HciEventParser.LeadingCommas | GattSnatcher/main/hci_event_parser.cpp:111-139 | the commas `strtok_r` skips: a run of commas, followed by a non-comma or the end |
| HciEventParser.CommaIndex | GattSnatcher/main/hci_event_parser.cpp:111-139 | where a token ends: the first comma, or the end when there is none |
| HciEventParser.StrTokNone | GattSnatcher/main/hci_event_parser.cpp:111-139 | `strtok_r` finds no token exactly when the text is made only of commas |
| HciEventParser.Prefix | GattSnatcher/main/hci_event_parser.cpp:103-105 | copying into a bounded buffer keeps a prefix of at most `n` characters, all of the text when it fits |
| HciEventParser.ParseAdvReportFromString | GattSnatcher/main/hci_event_parser.cpp:101-153 | a parsed line had at least five commas in its first 255 characters; the address is 1 to 17 comma-free characters, the file name at most 63 characters and the RSSI a signed byte |
| HciEventParser.FilenameField | GattSnatcher/main/hci_event_parser.cpp:141-150 | the file name is what follows the sixth token, without its trailing newline, cut to 63 characters |
| HciEventParser.ParseOfTokens | GattSnatcher/main/hci_event_parser.cpp:111-150 | a line with six tokens parses to their `atoi` values cast to uint8/int8, the address cut to 17 characters and the file-name field of the rest |
| HciEventParser.StrTokOfField | GattSnatcher/main/hci_event_parser.cpp:111-139 | a token followed by a comma is returned with exactly the text after that comma |
| HciEventParser.TokenPrefix | GattSnatcher/main/hci_event_parser.cpp:128-129 | cutting a token to 17 characters leaves a token |
| HciEventLayout.ReportAtBytes | GattSnatcher/main/hci_event_parser.cpp:62-95 | the bytes of one report, laid out as the controller sends them, read back as that report, with the cursor moved past exactly those bytes |
| HciEventLayout.WalkOfLaid | GattSnatcher/main/hci_event_parser.cpp:60-95 | the report loop over reports laid one after the other reads every one of them back, in order, and ends just past the last one |
| HciEventLayout.InterleavedEventDecodes | GattSnatcher/main/hci_event_parser.cpp:13-98 | any LE Advertising Report event of 1 to 25 well-formed reports, encoded field by field and report after report, decodes with `ESP_OK`, a timestamp, the count and exactly those reports in order |
| MacCache.KeyEquals | GattSnatcher/main/mac_cache.cpp:5-8 | two keys compare equal iff their address type and all six address bytes are equal |
| MacCache.IndexOf | GattSnatcher/main/mac_cache.cpp:71-80 | the position found holds the key and no earlier position does |
| MacCache.MoveToTail | GattSnatcher/main/mac_cache.cpp:71-80 | the length is kept and the key ends up last; entries before its old position stay in place and entries after it move up one, so the others keep their order |
| MacCache.TouchOutcome | GattSnatcher/main/mac_cache.cpp:33-48 | admission iff the key is absent or at least TTL old; on admission its stamp becomes `now` and it is last; on refusal nothing changes; the list grows by one only for a new key |
| MacCache.MoveTailIsNoOp | GattSnatcher/main/mac_cache.cpp:71-72 | moving the key that is already the tail leaves the list as it was |
| MacCache.MoveToTailKeys | GattSnatcher/main/mac_cache.cpp:71-80 | moving keeps the keys distinct and all present, and the moved key occurs only last |
| MacCache.TouchPreservesValid | GattSnatcher/main/mac_cache.cpp:33-48 | after admission or refusal the map's keys are exactly the list's keys, each once |
| MacCache.TouchKeepsSorted | GattSnatcher/main/mac_cache.cpp:33-80 | when no stamp is later than `now`, admission or refusal keeps the stamps non-decreasing from head to tail and none later than `now` |
| MacCache.MovedKeepsSorted | GattSnatcher/main/mac_cache.cpp:40-42 | refreshing an entry and moving it to the tail keeps the list sorted by stamp |
| MacCache.AppendedKeepsSorted | GattSnatcher/main/mac_cache.cpp:44-47 | appending a new entry stamped `now` keeps the list sorted by stamp |
| MacCache.EvictDropsExpiredPrefix | GattSnatcher/main/mac_cache.cpp:50-59 | eviction removes a prefix of the list, every entry of which is more than TTL old, keeps the other stamps, and stops at an entry that is not expired |
| MacCache.EvictPreservesValid | GattSnatcher/main/mac_cache.cpp:50-59 | after eviction the map's keys are still exactly the list's keys |
| MacCache.EvictLeavesNoExpired | GattSnatcher/main/mac_cache.cpp:33-80 | on a sorted cache, no entry more than TTL old survives eviction |
| MacCache.EvictKeepsSorted | GattSnatcher/main/mac_cache.cpp:50-59 | eviction keeps the cache sorted |
| MacCache.TouchExample | GattSnatcher/main/mac_cache.cpp:33-48 | a key is admitted at 0, refused at any `0 < t < TTL` and admitted again at exactly TTL (20 minutes in microseconds) |
| MacCache.Cache.constructor | GattSnatcher/main/mac_cache.cpp:21 | a new cache is empty |
| MacCache.Cache.ShouldPrintAndAddToCache | GattSnatcher/main/mac_cache.cpp:33-48 | the answer and the new map and list are those of `Touch`, and the map and list stay in step |
| MacCache.Cache.AppendToTail | GattSnatcher/main/mac_cache.cpp:61-69 | the key is appended at the tail and the map is unchanged |
| MacCache.Cache.MoveToTailInPlace | GattSnatcher/main/mac_cache.cpp:71-80 | the list becomes `MoveToTail` of the old list, the map is unchanged |
| MacCache.Cache.EvictOld | GattSnatcher/main/mac_cache.cpp:50-59 | the loop leaves the state `Evict` gives and keeps map and list in step |
| DeviceScanner.HciRing.ControllerOutRdy | GattSnatcher/main/device_scanner.cpp:256-280 | `ESP_OK` iff the packet is at most 258 bytes and fewer than 10 are queued; a refusal changes nothing, not even the index; an admission copies into slot `idx`, advances it mod 10 and queues the packet (the collector's admission, collector-ad.cpp:67-91, is the same code with the same constants) |
| DeviceScanner.HciRing.Enqueue | GattSnatcher/main/device_scanner.cpp:269-277 | an admitted packet lands in slot `idx`, and the ring invariant holds: queued packets sit in consecutive slots ending before `idx`, each still holding its bytes |
| DeviceScanner.HciRing.Receive | GattSnatcher/main/device_scanner.cpp:219-227 | the worker takes the oldest packet with its timestamp, FIFO; an empty queue gives nothing |
| DeviceScanner.HciRing.constructor | GattSnatcher/main/device_scanner.cpp:256-280 | a new ring starts at slot 0 with nothing queued |
| DeviceScanner.EnqueueKeepsRing | GattSnatcher/main/device_scanner.cpp:265-271 | with fewer than 10 queued, the slot a new packet overwrites holds no queued packet, so every queued packet keeps its bytes |
| DeviceScanner.Offer | GattSnatcher/main/device_scanner.cpp:236-243 | a report is admitted iff its key is new to the cache or at least TTL old; the cache stays valid |
| DeviceScanner.Admissions | GattSnatcher/main/device_scanner.cpp:233-245 | offering a packet's reports in order gives one admission flag per report and a valid cache |
| DeviceScanner.DeviceScanner.constructor | GattSnatcher/main/device_scanner.cpp:31 | empty ring, empty cache, nothing written and nothing sent |
| DeviceScanner.DeviceScanner.HciEvtProcess | GattSnatcher/main/device_scanner.cpp:215-250 | with nothing queued nothing changes; otherwise the oldest packet is taken, its status is that of `Decode`, and the cache, UART lines (the corrected `CsvLine`) and flash records are as `Processed` states |
| DeviceScanner.DeviceScanner.ProcessPacket | GattSnatcher/main/device_scanner.cpp:228-245 | a packet is routed only when it decodes with `ESP_OK` and has a connectable report; then every report goes to flash and the cache-admitted ones to the UART as the corrected `CsvLine` |
| DeviceScanner.DeviceScanner.RouteReports | GattSnatcher/main/device_scanner.cpp:236-244 | over a packet: the cache is `Admissions`; the UART gains the corrected `CsvLine`s of the admitted reports in order; flash gains every report's record when the file is open |
| DeviceScanner.DeviceScanner.RouteOne | GattSnatcher/main/device_scanner.cpp:236-243 | one report: the cache answer is `Offer`, eviction runs only after an admission, one corrected `CsvLine` is sent iff admitted, and the record goes to flash regardless |
| DeviceScanner.TextKeyOfDecoded | GattSnatcher/main/device_scanner.cpp:236-239 | two decoded reports share a cache key iff their address types and their two most significant address octets agree |
| DeviceScanner.SeenStaysFresh | GattSnatcher/main/device_scanner.cpp:236-243 | after a packet, every report's key is fresh in the cache at `now` |
| DeviceScanner.RepeatNotAdmitted | GattSnatcher/main/device_scanner.cpp:236-243 | a later report of the same packet whose key an earlier one had is refused |
| DeviceScanner.AdmissionsPrefix | GattSnatcher/main/device_scanner.cpp:236-243 | the admission of a report depends only on the reports before it |
| DeviceScanner.OfferMakesFresh | GattSnatcher/main/device_scanner.cpp:236-243 | after an offer the report's key is fresh, whether it was admitted or refused |
| DeviceScanner.OfferKeepsFresh | GattSnatcher/main/device_scanner.cpp:240-243 | an offer keeps every fresh key fresh |
| DeviceScanner.EvictSparesFresh | GattSnatcher/main/mac_cache.cpp:50-59 | eviction keeps every entry that is at most TTL old, with its stamp |
| RomPrintController.HeaderLayout | GattSnatcher/main/rom_print_controller.cpp:64-78 | bytes 0-5 are the timestamp mod 2^48 little-endian; bytes 6, 7, 8-13, 14 are event type, address type, raw address and data length; byte 15 is the RSSI as a byte |
| RomPrintController.LowBytesOfUnsigned | GattSnatcher/main/rom_print_controller.cpp:66-71 | casting the signed timestamp to 64-bit unsigned first does not change its six low bytes |
| RomPrintController.Records | GattSnatcher/main/rom_print_controller.cpp:105-111 | the records of `n` reports are `16 * n` bytes |
| RomPrintController.RecordsSlice | GattSnatcher/main/rom_print_controller.cpp:105-111 | record `j` of the stored bytes is the header of report `j` |
| RomPrintController.FlipCycle | GattSnatcher/main/rom_print_controller.cpp:86-94 | after `n` stored records the counter is `n mod 257` and `n div 257` syncs have happened |
| RomPrintController.FirstShort | GattSnatcher/main/rom_print_controller.cpp:80-84 | the index of the first short write: all writes before it were full, and it is short unless it is `n` |
| RomPrintController.FirstShortAt | GattSnatcher/main/rom_print_controller.cpp:105-111 | the first short write stays the first one in any longer run |
| RomPrintController.FilePrintController.PrintAdvertisingSingleReport | GattSnatcher/main/rom_print_controller.cpp:57-103 | `ESP_OK` iff the file is open and all 16 bytes were written, else `ESP_FAIL`; an open file gains exactly what was written; only a full write counts as a stored record |
| RomPrintController.FilePrintController.PrintAdvertisingReport | GattSnatcher/main/rom_print_controller.cpp:105-111 | reports are written in order up to and including the first short write; `ESP_OK` iff there are no reports, or the file is open and every write was full |
| RomPrintController.FilePrintController.StoreReports | GattSnatcher/main/rom_print_controller.cpp:105-111 | the same loop over a sequence of reports |
| RomPrintController.StoredShort | GattSnatcher/main/rom_print_controller.cpp:105-111 | with a short write at `i`, the file gains the first `i` records and what the short write wrote |
| RomPrintController.StoredFull | GattSnatcher/main/rom_print_controller.cpp:105-111 | with no short write, the file gains every record |
| RomPrintController.FilePrintController.PrintGattProfileJson | GattSnatcher/main/rom_print_controller.cpp:120-191 | the text file gains the profile JSON with `0x%04x` UUIDs; records, sync counter and open state are untouched |
| RomPrintController.FilePrintController.constructor | GattSnatcher/main/rom_print_controller.cpp:21-50 | a new sink is open or not as given, with nothing written and nothing stored |
| ProcessScannerFiles.ParseSingleFile | dataAnalysis/process_scanner_files.py:12-36 | a header row, then one row per whole 16-byte record, in order; a trailing partial record is dropped |
| ProcessScannerFiles.ZeroExtension | dataAnalysis/process_scanner_files.py:25-26 | padding the six timestamp bytes with zeros does not change their little-endian value |
| ProcessScannerFiles.UpperPairs | dataAnalysis/process_scanner_files.py:9-10 | upper-case hex pairs are the lower-case pairs upper-cased |
| ProcessScannerFiles.RecordRoundTrip | dataAnalysis/process_scanner_files.py:25-31 | decoding a header gives back the timestamp mod 2^48, the event and address types, the printed address upper-cased, the data length and the RSSI |
| ProcessScannerFiles.StoredRecordDecodes | dataAnalysis/process_scanner_files.py:20-31 | the file sink's bytes for a packet hold one record per report, and record `j` decodes to report `j` |
| UartController.CsvLine | GattSnatcher/main/uart_controller.cpp:46-73 | the line is at most 255 characters |
| UartController.CsvLineWithoutName | GattSnatcher/main/uart_controller.cpp:50-58 | without a file name, the corrected line and the line as written are the same, ending in `,-` |
| UartController.UartController.SetCurrentlyUsedFilename | GattSnatcher/main/uart_controller.cpp:100-103 | the file name pointer is replaced and nothing is sent |
| UartController.UartController.constructor | GattSnatcher/main/uart_controller.cpp:100-103 | a new controller has no file name and has sent nothing |
| UartController.UartController.PrintAdvertisingSingleReport | GattSnatcher/main/uart_controller.cpp:46-73 | `ESP_OK`, and exactly one line is sent: the corrected `CsvLine` of the report, which has a comma between the RSSI and the file name where line 61 has none |
| UartController.UartController.PrintAdvertisingReport | GattSnatcher/main/uart_controller.cpp:75-81 | one corrected `CsvLine` per report, in report order, after what was sent before |
| UartController.HeadTokens | GattSnatcher/main/uart_controller.cpp:52-61 | `strtok_r` reads the first five fields of a line back as the tokens that were printed |
| UartController.CsvRoundTrip | GattSnatcher/main/uart_controller.cpp:46-73 | parsing a sent line gives back timestamp, types, address, data length, RSSI and the file name, or `-` without one |
| UartController.FieldsReadBack | GattSnatcher/main/uart_controller.cpp:52-61 | `atoi` and the uint8/int8 casts give back every printed number, including an RSSI followed by non-digit text |
| UartController.AsWrittenLosesFilename | GattSnatcher/main/uart_controller.cpp:59-68 | with the line as written, the file name fuses with the RSSI token; the parser gets the RSSI right and an empty file name |
| UartController.LineHeadLength | GattSnatcher/main/uart_controller.cpp:52-61 | the length of a line is the sum of its fields' lengths plus five commas |
| UartController.ScannerFilenameShape | GattSnatcher/main/rom_print_controller.cpp:23-42 | every file name the scanner uses (index below 1000) starts with '/', has no comma and has at most 28 characters |
| UartController.AsWrittenLosesScannerFilename | GattSnatcher/main/uart_controller.cpp:61 | for every scanner file name, the line as written parses with an empty file name, and the corrected line parses with that file name |
| GattJson.Uuid16 | GattSnatcher/main/rom_print_controller.cpp:140 | the 16-bit value of a UUID is below 0x10000 |
| GattJson.CharUuidLines | GattSnatcher/main/rom_print_controller.cpp:156-166 | one UUID line per characteristic |
| GattJson.PaddedHexRoundTrip | GattSnatcher/main/rom_print_controller.cpp:140 | `%04x` gives four hex digits that read back as the value |
| GattJson.PaddingOnlyBelow0x1000 | GattSnatcher/main/console_print_controller.cpp:98-99 | the padded and unpadded renderings agree iff the value is at least 0x1000 |
| GattJson.SinksAgreeOnWideUuids | GattSnatcher/main/console_print_controller.cpp:79-148 | when every 16-bit UUID is at least 0x1000, the console and file sinks write the same profile JSON |
| GattJson.SinksDifferBelow0x1000 | GattSnatcher/main/rom_print_controller.cpp:159 | a 16-bit UUID below 0x1000 is written differently by the two sinks |
| ConsolePrintController.ConsolePrintController.PrintAdvertisingSingleReport | GattSnatcher/main/console_print_controller.cpp:42-48 | `ESP_OK`, and one line, the six-field CSV form without file name, is logged |
| ConsolePrintController.ConsolePrintController.PrintAdvertisingReport | GattSnatcher/main/console_print_controller.cpp:53-61 | a three-line banner, then one line per report in order |
| ConsolePrintController.ConsolePrintController.PrintGattProfileJson | GattSnatcher/main/console_print_controller.cpp:79-148 | one log entry: a title with the APP_ID, then the profile JSON with unpadded UUIDs |
| ConsolePrintController.ConsolePrintController.constructor | GattSnatcher/main/console_print_controller.cpp:42-48 | a new console sink has logged nothing |
| ConsolePrintController.BuildProfileJson | GattSnatcher/main/console_print_controller.cpp:79-148 | the string built step by step is the profile JSON: `remote_bda`, file name, timestamp, then the services, comma-separated except after the last |
| ConsolePrintController.BuildServiceJson | GattSnatcher/main/console_print_controller.cpp:94-142 | one service item: its UUID, handles and characteristic list |
| ConsolePrintController.BuildCharsJson | GattSnatcher/main/console_print_controller.cpp:112-140 | the characteristic list, comma-separated except after the last |
| ConsolePrintController.WellFormedProfile | GattSnatcher/main/console_print_controller.cpp:79-148 | the profile JSON is its head, the service items and the closing brackets |
| ConsolePrintController.ConsoleLineIsUartLineHead | GattSnatcher/main/console_print_controller.cpp:42-48 | when it fits, the UART line without file name is the console line followed by `,-` and a newline |
| ConsolePrintController.ConsoleLineAndNamedUartLine | GattSnatcher/main/console_print_controller.cpp:42-48 | the UART line as written with a file name is the console line with the name glued on, cut to 255 characters |
| ConsolePrintController.ConsoleLineRoundTrip | GattSnatcher/main/console_print_controller.cpp:42-48 | parsing the logged message body, without the `ESP_LOGI` prefix and newline, gives back its six fields and an empty file name |
| DeviceInterrogator.Elapsed | GattSnatcher/main/device_interrogator.cpp:239-248 | tick differences are taken modulo the 32-bit tick counter |
| DeviceInterrogator.ParseBdaddr | GattSnatcher/main/device_interrogator.cpp:532-547 | a parsed address has six bytes |
| DeviceInterrogator.ParseBdaddrStr | GattSnatcher/main/device_interrogator.cpp:532-547 | success iff six ':'-separated hex numbers are scanned; then byte `i` is number `i` truncated to 8 bits; on failure the array is untouched |
| DeviceInterrogator.StoreLowBytes | GattSnatcher/main/device_interrogator.cpp:540-545 | the store loop writes each scanned number's low byte, in order |
| DeviceInterrogator.ParseOfFormattedAddress | GattSnatcher/main/device_interrogator.cpp:532-547 | parsing the scanner's printed address gives the wire bytes reversed |
| DeviceInterrogator.ParsedAddressHasFiveColons | GattSnatcher/main/device_interrogator.cpp:532-547 | any text that parses as an address has at least five colons |
| DeviceInterrogator.ScanHexReadsHexPairs | GattSnatcher/main/device_interrogator.cpp:536-539 | `%x` reads a two-digit hex pair followed by ':' or the end as its value |
| DeviceInterrogator.ScanOfHexPairs | GattSnatcher/main/device_interrogator.cpp:536-539 | a colon-joined run of hex pairs scans to its bytes |
| DeviceInterrogator.ScannerLineBecomesRequest | GattSnatcher/main/device_interrogator.cpp:93-129 | a corrected scanner line (`CsvLine`, with the comma after the RSSI), when it arrives in one read, becomes the request for the reversed address, its address type, timestamp and file name |
| DeviceInterrogator.ScannerLineAsWrittenLosesFilename | GattSnatcher/main/device_interrogator.cpp:93-129 | the line the scanner sends as written while it writes a log file becomes a request for the right device, address type and timestamp, but with an empty file name |
| DeviceInterrogator.ClearedIsIdle | GattSnatcher/main/device_interrogator.cpp:635-646 | clearing is idempotent, keeps interface and last request, leaves a consistent slot, free iff it has an interface |
| DeviceInterrogator.SecondFinalProcedure | GattSnatcher/main/device_interrogator.cpp:610-648 | a second `finalProcedure` on a released slot still asks to close the unused connection id, and dumps an empty profile with a zero address to the file sink |
| DeviceInterrogator.ResetIsClearedWithoutInterface | GattSnatcher/main/device_interrogator.cpp:290-312 | a slot after `resetState` (its cleared state without an interface) is consistent and never offered a request, and a second reset changes nothing |
| DeviceInterrogator.FirstFree | GattSnatcher/main/device_interrogator.cpp:360-394 | the chosen slot is within range |
| DeviceInterrogator.FirstFreeIsLowest | GattSnatcher/main/device_interrogator.cpp:360-394 | the chosen slot is eligible and accepted the open, and no lower slot was both; with no choice, none was |
| DeviceInterrogator.AssignedIsConsistent | GattSnatcher/main/device_interrogator.cpp:380-388 | an assigned slot is busy, consistent and no longer eligible |
| DeviceInterrogator.StuckCountFull | GattSnatcher/main/device_interrogator.cpp:239-272 | the restart happens iff every slot is stuck |
| DeviceInterrogator.ReleasedOrConnectedNotStuck | GattSnatcher/main/device_interrogator.cpp:239-248 | a cleared or reset slot, or one with a connection, is never stuck |
| DeviceInterrogator.DispatchedSlotTimesOut | GattSnatcher/main/device_interrogator.cpp:239-248 | a slot dispatched at a nonzero tick without connection is stuck iff more than 75000 ticks have passed, which is 75 s at a 1 kHz tick |
| DeviceInterrogator.DispatchedAtTickZeroNeverStuck | GattSnatcher/main/device_interrogator.cpp:239-248 | a start tick of 0 reads as not started, so such a slot never counts as stuck |
| DeviceInterrogator.Unexpired | GattSnatcher/main/device_interrogator.cpp:570-579 | the purge never lengthens the list |
| DeviceInterrogator.UnexpiredCounts | GattSnatcher/main/device_interrogator.cpp:570-579 | the purge removes every expired entry and keeps every other one with its multiplicity |
| DeviceInterrogator.UnexpiredAppend | GattSnatcher/main/device_interrogator.cpp:570-579 | the purge keeps order: it distributes over concatenation |
| DeviceInterrogator.UnexpiredIdempotent | GattSnatcher/main/device_interrogator.cpp:570-579 | purging twice is purging once |
| DeviceInterrogator.SweepReleasesFinishedSlots | GattSnatcher/main/device_interrogator.cpp:558-593 | after the sweep a slot is free iff its reads were done after the purge or it was not busy; no expired entry is left |
| DeviceInterrogator.UnregistrationAbortsInterrogations | GattSnatcher/main/device_interrogator.cpp:148-166 | unregistration keeps a slot consistent; a slot whose application re-registers ends up released; a slot on the unregistered interface loses it and is no longer eligible; a slot on another interface that does not re-register is untouched |
| DeviceInterrogator.UnregistrationClearsFlags | GattSnatcher/main/device_interrogator.cpp:148-166 | after the unregistration loop a slot is still marked connected (or reading services) iff it was before, its re-registration was refused and it did not hold the unregistered interface |
| DeviceInterrogator.RoutedSlots | GattSnatcher/main/device_interrogator.cpp:201-216 | an event goes to every slot of its interface, or to all for `ESP_GATT_IF_NONE`, each once and in slot order |
| DeviceInterrogator.RequestOfLine | GattSnatcher/main/device_interrogator.cpp:93-129 | a line that parses and whose address parses gives a request with a six-byte address |
| DeviceInterrogator.Interrogator.constructor | GattSnatcher/main/device_interrogator.cpp:32-45 | three initial slots, empty queue, no action, monitor flag set |
| DeviceInterrogator.Interrogator.SendInterrogationRequestToQueue | GattSnatcher/main/device_interrogator.cpp:131-138 | never blocks: appends at the back of the 50-entry FIFO with `ESP_OK`, or returns `ESP_ERR_NO_MEM` and leaves the queue |
| DeviceInterrogator.Interrogator.QuestionerLine | GattSnatcher/main/device_interrogator.cpp:93-129 | one newline-free piece of a read: a piece that parses queues its request when there is room; a bad address ends the questioner loop; other pieces are ignored |
| DeviceInterrogator.Interrogator.FinalProcedure | GattSnatcher/main/device_interrogator.cpp:610-648 | the slot is cleared and its flags dropped; the close is always attempted, the file dump always made and the console dump only when asked |
| DeviceInterrogator.Interrogator.ResetState | GattSnatcher/main/device_interrogator.cpp:290-312 | every slot becomes `ResetSlot` of itself, the flags drop, the monitor flag is set |
| DeviceInterrogator.Interrogator.DispatchOnce | GattSnatcher/main/device_interrogator.cpp:342-402 | with a request queued: the lowest eligible slot that accepts gets it and the request leaves the queue; otherwise the request stays at the front; the open attempts are made in slot order |
| DeviceInterrogator.Interrogator.OfferToSlots | GattSnatcher/main/device_interrogator.cpp:360-394 | the request is taken iff some eligible slot accepts, and only the first such slot changes |
| DeviceInterrogator.Interrogator.TimeoutEnforcerPass | GattSnatcher/main/device_interrogator.cpp:230-274 | a restart is requested iff every slot is stuck; nothing else changes |
| DeviceInterrogator.Interrogator.PendingMonitorPass | GattSnatcher/main/device_interrogator.cpp:558-593 | every slot is swept in order: expired reads purged, finished slots released with a console dump |
| DeviceInterrogator.Interrogator.SweepSlot | GattSnatcher/main/device_interrogator.cpp:566-591 | one slot: purged, and released with its flags dropped iff its reads are done |
| DeviceInterrogator.Interrogator.GattcCallback | GattSnatcher/main/device_interrogator.cpp:140-217 | an unregistration runs the loop over all slots (`UnregisterAll`) and is handed to no slot; a failed registration changes nothing and stops; a successful registration records the interface in its slot; every event but an unregistration goes to the slots `RoutedSlots` names and leaves the connection and service flags as they were |
| DeviceInterrogator.Interrogator.RouteEvent | GattSnatcher/main/device_interrogator.cpp:201-216 | the dispatch loop's targets are `Routed` |
| DeviceInterrogator.Interrogator.UnregisterAll | GattSnatcher/main/device_interrogator.cpp:148-166 | after the loop, every slot is as `UnregSlot` leaves it, its connection and service flags are as `UnregFlag` leaves them (cleared exactly where the slot held the interface or re-registered), and the calls made are the slots' calls in slot order; the queue and the task flags are untouched |
| DeviceInterrogator.Interrogator.UnregisterSlot | GattSnatcher/main/device_interrogator.cpp:150-164 | one slot of the loop: the slot becomes `UnregSlot` of it, its connection and service flags are cleared when it held the interface or its re-registration was accepted and kept otherwise, the other slots and flags are untouched, and the calls are `finalProcedure`'s (when it held the interface), the re-registration, then `finalProcedure`'s again when accepted |
| DeviceInterrogator.RemoveExpired | GattSnatcher/main/device_interrogator.cpp:570-579 | the erase loop leaves `Unexpired` of the list |
| InterrogatorEventLoop.UuidCmpMeaning | GattSnatcher/main/interrogator_event_loop.cpp:337-355 | equal iff the lengths are equal and one of 2, 4, 16, and the significant bytes are equal |
| InterrogatorEventLoop.UuidCmpEquivalence | GattSnatcher/main/interrogator_event_loop.cpp:337-355 | an equivalence on UUIDs of known length; a UUID of any other length is not even equal to itself |
| InterrogatorEventLoop.OpenOutcome | GattSnatcher/main/interrogator_event_loop.cpp:40-59 | a failed open releases the slot without console dump and leaves no connection id; a successful one records the connection and requests the MTU |
| InterrogatorEventLoop.SearchResultsAccumulate | GattSnatcher/main/interrogator_event_loop.cpp:68-95 | each search result appends exactly one service at the end, with no cap |
| InterrogatorEventLoop.Requested | GattSnatcher/main/interrogator_event_loop.cpp:124 | the number of characteristics asked for is the reported count, capped at 16 |
| InterrogatorEventLoop.DiscoveryOutcome | GattSnatcher/main/interrogator_event_loop.cpp:118-157 | a failed or zero count keeps a service's characteristics; otherwise they become the reported ones, at most 16, without values |
| InterrogatorEventLoop.DiscoveredAll | GattSnatcher/main/interrogator_event_loop.cpp:104-160 | discovery keeps the number of services |
| InterrogatorEventLoop.WrapMetas | GattSnatcher/main/interrogator_event_loop.cpp:140-155 | one characteristic without a value per reported element, in order |
| InterrogatorEventLoop.DiscoverChars | GattSnatcher/main/interrogator_event_loop.cpp:104-160 | the discovery loop over services is `DiscoveredAll` |
| InterrogatorEventLoop.ReadOnlyIsTwo | GattSnatcher/main/interrogator_event_loop.cpp:165-175 | the queue test singles out exactly the property byte 0x02 |
| InterrogatorEventLoop.ReadableInMembership | GattSnatcher/main/interrogator_event_loop.cpp:165-175 | a handle is queued from a list iff some characteristic with that handle has properties 0x02 |
| InterrogatorEventLoop.ReadableHandlesMembership | GattSnatcher/main/interrogator_event_loop.cpp:165-175 | the same over all services |
| InterrogatorEventLoop.ReadableHandlesAppend | GattSnatcher/main/interrogator_event_loop.cpp:165-175 | handles are queued in service order |
| InterrogatorEventLoop.ReadableInBound | GattSnatcher/main/interrogator_event_loop.cpp:165-175 | no more handles than characteristics |
| InterrogatorEventLoop.QueueReadableIn | GattSnatcher/main/interrogator_event_loop.cpp:168-174 | the inner queue loop appends the read-only handles of one service |
| InterrogatorEventLoop.QueueReadable | GattSnatcher/main/interrogator_event_loop.cpp:165-175 | the outer queue loop appends them service after service |
| InterrogatorEventLoop.SentLayout | GattSnatcher/main/interrogator_event_loop.cpp:185-207 | one pending entry stamped `now` per handle, in order |
| InterrogatorEventLoop.ReadCallsLayout | GattSnatcher/main/interrogator_event_loop.cpp:185-207 | one read call per handle on the slot's connection, in order |
| InterrogatorEventLoop.DrainReadQueue | GattSnatcher/main/interrogator_event_loop.cpp:185-207 | the drain never waits: the queue empties, every handle becomes pending in order and is read, and reads count as scheduled if any was sent |
| InterrogatorEventLoop.SearchSendsEveryRead | GattSnatcher/main/interrogator_event_loop.cpp:96-211 | after a successful search with services the queue is empty, one pending entry per read-only handle follows the old ones, and the slot is not done while reads are outstanding |
| InterrogatorEventLoop.SearchReadsExactlyReadOnly | GattSnatcher/main/interrogator_event_loop.cpp:96-211 | a read is pending for a handle iff a discovered characteristic with that handle has properties 0x02 |
| InterrogatorEventLoop.WithoutFirstAt | GattSnatcher/main/interrogator_event_loop.cpp:215-222 | only the first pending entry with the handle is erased, or none |
| InterrogatorEventLoop.StoredInAt | GattSnatcher/main/interrogator_event_loop.cpp:231-240 | the value goes into the first characteristic with the handle, or nowhere |
| InterrogatorEventLoop.StoredValue | GattSnatcher/main/interrogator_event_loop.cpp:231-240 | storing keeps the number of services |
| InterrogatorEventLoop.ErasePending | GattSnatcher/main/interrogator_event_loop.cpp:215-222 | the erase loop is `WithoutFirst` |
| InterrogatorEventLoop.StoreInChars | GattSnatcher/main/interrogator_event_loop.cpp:233-239 | the inner store loop, stopping at the first match, is `StoredIn` |
| InterrogatorEventLoop.StoreInServices | GattSnatcher/main/interrogator_event_loop.cpp:231-240 | the outer store loop is `StoredValue` |
| InterrogatorEventLoop.ReadOutcome | GattSnatcher/main/interrogator_event_loop.cpp:212-245 | a read result strikes off one pending entry iff one has its handle; only values change, and on failure none |
| InterrogatorEventLoop.StoredInKeepsMetas | GattSnatcher/main/interrogator_event_loop.cpp:231-240 | storing never changes a characteristic's handle, properties or UUID |
| InterrogatorEventLoop.LastReadCompletes | GattSnatcher/main/interrogator_event_loop.cpp:212-245 | the answer to the last outstanding read leaves the slot done |
| InterrogatorEventLoop.DisconnectOnce | GattSnatcher/main/interrogator_event_loop.cpp:286-298 | a released slot matches a disconnect only for the unused connection id and the zero address, so a real disconnect never releases it twice |
| InterrogatorEventLoop.OnOpen | GattSnatcher/main/interrogator_event_loop.cpp:40-59 | the slot becomes `AfterOpen`, and the actions and flags follow the outcome |
| InterrogatorEventLoop.OnCfgMtu | GattSnatcher/main/interrogator_event_loop.cpp:60-67 | the service search starts whatever the MTU status |
| InterrogatorEventLoop.OnSearchRes | GattSnatcher/main/interrogator_event_loop.cpp:68-95 | one service appended |
| InterrogatorEventLoop.OnSearchCmpl | GattSnatcher/main/interrogator_event_loop.cpp:96-211 | failure releases with a console dump; success with no services changes nothing; otherwise discovery, queueing and the drain |
| InterrogatorEventLoop.OnReadChar | GattSnatcher/main/interrogator_event_loop.cpp:212-245 | the slot becomes `AfterRead` |
| InterrogatorEventLoop.OnWriteChar | GattSnatcher/main/interrogator_event_loop.cpp:264-265 | the connecting and scan-stopped flags drop whatever the status; the monitor flag, queue and actions are unchanged |
| InterrogatorEventLoop.OnDisconnect | GattSnatcher/main/interrogator_event_loop.cpp:286-298 | only a disconnect matching both the slot's connection id and peer address releases it, with a console dump |
| InterrogatorEventLoop.HandleEvent | GattSnatcher/main/interrogator_event_loop.cpp:20-312 | the per-slot state machine, with the whole new state for each event: the slots (only slot `app` changes, as `OnOpen`, `OnSearchRes`, `OnSearchCmpl`, `OnReadChar` and `OnDisconnect` give it), the calls appended (the MTU request or `finalProcedure`'s close and dumps on open, the reads on a completed search, the search on an MTU event, the close and dumps on a matching disconnect), the connection and service flags (cleared exactly where the slot is released) and the task flags (dropped on a write); other events change nothing |
| CollectorAd.AdWalkBounds | GattSnatcher/main/collector-ad.cpp:252-286 | a completed AD walk ends inside the buffer, after where it began |
| CollectorAd.WalkIsNameOfStructures | GattSnatcher/main/collector-ad.cpp:252-286 | the walk's name is `LocalName` of the AD structures it passes |
| CollectorAd.LocalNameAppend | GattSnatcher/main/collector-ad.cpp:269-282 | the name of two runs of structures is the second run applied after the first |
| CollectorAd.NamedStaysNamed | GattSnatcher/main/collector-ad.cpp:270-275 | a shortened name never overwrites a name already found |
| CollectorAd.CompleteNameWins | GattSnatcher/main/collector-ad.cpp:276-279 | the last complete local name wins when no complete name follows it |
| CollectorAd.ShortenedNameWithoutComplete | GattSnatcher/main/collector-ad.cpp:269-282 | without a complete name, the name is the first shortened one |
| CollectorAd.AdWalkSkip | GattSnatcher/main/collector-ad.cpp:260-264 | a zero length byte consumes one byte and is skipped |
| CollectorAd.AdWalkStructure | GattSnatcher/main/collector-ad.cpp:260-282 | a structure moves the walk by its length plus one, moves the 8-bit counter by the same amount mod 256, and picks the name from its type and value |
| CollectorAd.AdWalkShift | GattSnatcher/main/collector-ad.cpp:252-286 | walking the data where it sits in the packet gives the same name as walking it alone, with the end shifted by its offset |
| CollectorAd.Addrs | GattSnatcher/main/collector-ad.cpp:235-239 | the `n` six-byte addresses read in a row |
| CollectorAd.NamesWalk | GattSnatcher/main/collector-ad.cpp:252-286 | one name per report, each shorter than 256 bytes |
| CollectorAd.ParseGrouped | GattSnatcher/main/collector-ad.cpp:221-291 | a parsed event has `count` reports read as grouped arrays and fits the packet; an event whose fields pass the packet's end is refused |
| CollectorAd.ParsedFrom | GattSnatcher/main/collector-ad.cpp:221-291 | the event is its groups, its names and then the RSSI bytes |
| CollectorAd.GroupsAt | GattSnatcher/main/collector-ad.cpp:223-246 | the grouped arrays can be read iff 9 bytes per report follow the header; then there is one event type, address type, six-byte address and length per report |
| CollectorAd.NamesAt | GattSnatcher/main/collector-ad.cpp:248-286 | one name per report, each shorter than 256 bytes when the table's are, read without passing the end |
| CollectorAd.NamesWalkStaysFailed | GattSnatcher/main/collector-ad.cpp:252-286 | once the walk of the names fails, walking more reports does not recover it |
| CollectorAd.DataLengths | GattSnatcher/main/collector-ad.cpp:242-246 | one data length per report |
| CollectorAd.NoDataNoWalkedName | GattSnatcher/main/collector-ad.cpp:254-256 | a report without data gets no name from the walk |
| CollectorAd.WrappedTotalSkipsData | GattSnatcher/main/collector-ad.cpp:244-248 | when the 8-bit total of the data lengths is 0, even after wrapping, the names are not walked and the RSSIs are read straight after the lengths |
| CollectorAd.DataTotalPair | GattSnatcher/main/collector-ad.cpp:244 | the total is summed mod 256 |
| CollectorAd.Frame | GattSnatcher/main/collector-ad.cpp:324-332 | a frame is 23 bytes plus the name |
| CollectorAd.FramesSnoc | GattSnatcher/main/collector-ad.cpp:298-333 | the frames of reports `i` to `k` are those of `i` to `k - 1` followed by frame `k - 1` |
| CollectorAd.DecodeFrame | GattSnatcher/main/collector-ad.cpp:324-332 | a decoded frame consumes at least one byte and no more than there are |
| CollectorAd.FrameRoundTrip | GattSnatcher/main/collector-ad.cpp:324-332 | a frame decodes back to its timestamp, address, types, channel 39, RSSI and name, whatever follows it |
| CollectorAd.StreamRoundTrip | GattSnatcher/main/collector-ad.cpp:298-333 | the frames of an event read back as its reports, in order |
| CollectorAd.ReportFrameRoundTrip | GattSnatcher/main/collector-ad.cpp:298-333 | the frame of report `i` is not empty and decodes back to that report, whatever follows it |
| CollectorAd.Grown | GattSnatcher/main/collector-ad.cpp:183-184 | the table size is the largest count seen: it never shrinks |
| CollectorAd.Step | GattSnatcher/main/collector-ad.cpp:160-343 | an event that is not an LE Advertising Report changes nothing; otherwise the tables grow to the count, the UART output only grows, and the name table is empty again afterwards; an event whose fields pass the packet's end sends nothing |
| CollectorAd.StepSendsReports | GattSnatcher/main/collector-ad.cpp:160-343 | what one event sends reads back as its reports |
| CollectorAd.DataLessReportIsNameless | GattSnatcher/main/collector-ad.cpp:252-286 | a report without data is sent without a name when the table was cleared |
| CollectorAd.ResetAsWritten | GattSnatcher/main/collector-ad.cpp:340 | the reset as written keeps the table size |
| CollectorAd.StepAsWritten | GattSnatcher/main/collector-ad.cpp:160-343 | the worker as written keeps one name per slot, each shorter than 256 bytes |
| CollectorAd.AsWrittenResendsStaleName | GattSnatcher/main/collector-ad.cpp:336-342 | after a two-report event whose second report is named, a second event without data resends that name as written, and no name in the corrected model |
| CollectorAd.OneReportAgrees | GattSnatcher/main/collector-ad.cpp:221-291 | on a one-report event the grouped and the interleaved layouts are the same, and the collector and the scanner decoder read the same report |
| CollectorAd.OneReportEvent | GattSnatcher/main/collector-ad.cpp:221-291 | a one-report event is 15 bytes plus its data, carries the LE Advertising Report markers and counts one report |
| CollectorAd.OneReportCollected | GattSnatcher/main/collector-ad.cpp:221-291 | the collector reads a one-report event as that report, named by its AD walk |
| CollectorAd.TwoReportEvent | GattSnatcher/main/collector-ad.cpp:221-291 | a two-report event in the grouped layout is 25 bytes plus its data, carries the markers and counts two reports |
| CollectorAd.TwoReportParse | GattSnatcher/main/collector-ad.cpp:221-291 | the collector reads a two-report event as its two reports; with data the second is named by its walk, and without data the names are those in the table |
| CollectorAd.TwoReportsDisagree | GattSnatcher/main/collector-ad.cpp:221-291 | on a two-report event the two readings differ: the scanner decoder takes the second event type as the first address type, and the two address types and four address bytes as the first address |
| CollectorAd.TwoReportScannerView | GattSnatcher/main/hci_event_parser.cpp:60-95 | the scanner decoder, which expects the interleaved layout, reads the grouped two-report event with the second event type as address type and the address types as address bytes |
| CollectorAd.Collector.constructor | GattSnatcher/main/collector-ad.cpp:101-158 | one table slot, nothing sent |
| CollectorAd.Collector.HciEvtProcess | GattSnatcher/main/collector-ad.cpp:160-343 | the worker's state after one event is `Step` of the old state, so an event whose fields pass the packet's end sends nothing |
| CollectorAd.Collector.Emit | GattSnatcher/main/collector-ad.cpp:298-333 | the UART gains one frame per report, in order |
| CollectorAd.Collector.ClearNames | GattSnatcher/main/collector-ad.cpp:336-342 | every table entry is cleared |
| CollectorAd.ReadPacket | GattSnatcher/main/collector-ad.cpp:221-291 | the reads in the worker's order give `ParseGrouped`, and None when a read would pass the packet's end |
| CollectorAd.ReadGroups | GattSnatcher/main/collector-ad.cpp:223-246 | the four grouped loops give `GroupsAt` |
| CollectorAd.ReadNames | GattSnatcher/main/collector-ad.cpp:248-286 | names are walked only when the 8-bit total is nonzero |
| CollectorAd.SumLengths | GattSnatcher/main/collector-ad.cpp:242-246 | the lengths are summed in an 8-bit counter |
| CollectorAd.ScanNames | GattSnatcher/main/collector-ad.cpp:252-286 | the per-report loop is `NamesWalk` |
| CollectorAd.ScanName | GattSnatcher/main/collector-ad.cpp:258-283 | the AD loop of one report is `AdWalk` |
| CollectorAd.ReadBytes | GattSnatcher/main/collector-ad.cpp:289-291 | `n` bytes from the cursor, or nothing when they pass the end |
| CollectorAd.ReadAddrs | GattSnatcher/main/collector-ad.cpp:235-239 | the addresses are read six bytes each, or nothing when they pass the end |
| ProcessInterrogatorFiles.HexString | dataAnalysis/process_interrogator_files.py:26 | two hex digits per byte |
| ProcessInterrogatorFiles.BytesToUuidLayout | dataAnalysis/process_interrogator_files.py:22-28 | 36 characters, hyphens at 8, 13, 18 and 23, and the rest is the lower-case hex of the bytes (analysis_gatt.py:20-26 is the same function) |
| ProcessInterrogatorFiles.BytesToUuidRoundTrip | dataAnalysis/process_interrogator_files.py:22-28 | the UUID text parses back to the hex of the bytes, which reads back as the bytes |
| ProcessInterrogatorFiles.BytesToUuidChars | dataAnalysis/process_interrogator_files.py:22-28 | the UUID text holds only hex digits and hyphens, no ':' and no upper case |
| ProcessInterrogatorFiles.HexBytesRoundTrip | dataAnalysis/process_interrogator_files.py:26 | the hex of the bytes reads back as the bytes |
| ProcessInterrogatorFiles.DecodeProperties | dataAnalysis/process_interrogator_files.py:104-117 | the method's loop builds `PropertiesText` |
| ProcessInterrogatorFiles.AppendIfSet | dataAnalysis/process_interrogator_files.py:109-116 | each test appends its name iff its bit is set |
| ProcessInterrogatorFiles.FlagListed | dataAnalysis/process_interrogator_files.py:104-117 | a property is listed iff its bit is set |
| ProcessInterrogatorFiles.FlagsRoundTrip | dataAnalysis/process_interrogator_files.py:104-117 | the listed properties sum to the low byte of the mask |
| ProcessInterrogatorFiles.PropertiesNone | dataAnalysis/process_interrogator_files.py:117 | the text is "None" iff no bit of the low byte is set |
| ProcessInterrogatorFiles.PropertiesTextRoundTrip | dataAnalysis/process_interrogator_files.py:104-117 | splitting a nonzero text on '\|' and mapping names to bits gives back the low byte |
| ProcessInterrogatorFiles.PropertiesTextPlain | dataAnalysis/analysis_gatt.py:102-115 | the property text has no ':', so it is one part of a feature |
| ProcessInterrogatorFiles.CustomKeyShape | dataAnalysis/process_interrogator_files.py:76-91 | a `0x` entry of at most six characters becomes a 36-character key that starts with "0000" and ends with the Base UUID tail; an entry without `0x` is only lower-cased |
| ProcessInterrogatorFiles.ShortAndFullKeys | dataAnalysis/process_interrogator_files.py:81-86 | the short form and the full Base UUID form of one UUID give the same key iff its digits hold no letter |
| ProcessInterrogatorFiles.ShortKey | dataAnalysis/process_interrogator_files.py:82-84 | `0x` plus four digits becomes "0000" + the digits upper-cased + the Base UUID tail |
| ProcessInterrogatorFiles.FullKey | dataAnalysis/process_interrogator_files.py:81-86 | a lower-case full form is its own key |
| ProcessInterrogatorFiles.RJust | dataAnalysis/process_interrogator_files.py:84 | right-justifying pads to the width and never shortens |
| ProcessInterrogatorFiles.DecodeUuidFallbacks | dataAnalysis/process_interrogator_files.py:30-74 | a non-string names a custom service; a `0x` text that is not a number comes back as it is |
| ProcessInterrogatorFiles.BaseUuidReduced | dataAnalysis/process_interrogator_files.py:65-69 | a UUID in the Base UUID is looked up by its 16-bit short form |
| ProcessInterrogatorFiles.BaseUuidParsed | dataAnalysis/process_interrogator_files.py:60-69 | a full Base UUID form parses, without hyphens, to its hex |
| ProcessInterrogatorFiles.DecodeCharacteristicFallbacks | dataAnalysis/process_interrogator_files.py:93-100 | anything but a `0x` text names a custom characteristic |
| ProcessInterrogatorFiles.CharacteristicShortForm | dataAnalysis/process_interrogator_files.py:93-100 | a `0x` short form is named from the table, or comes back as it is |
| AnalysisGatt.ProfileToFeatureSet | dataAnalysis/analysis_gatt.py:156-166 | the nested loops build `FeatureSet` of the services |
| AnalysisGatt.FeatureSetMembership | dataAnalysis/analysis_gatt.py:156-166 | a text is a feature iff it is the feature of some characteristic of some service |
| AnalysisGatt.FeatureSetEmpty | dataAnalysis/analysis_gatt.py:156-166 | the feature set is empty iff no service has a characteristic |
| AnalysisGatt.FeatureSetSize | dataAnalysis/analysis_gatt.py:156-166 | there are no more features than characteristics |
| AnalysisGatt.FeatureParts | dataAnalysis/analysis_gatt.py:133-140 | a feature splits on ':' into exactly four parts, service, characteristic, properties and value, iff service, characteristic and value hold no ':' |
| AnalysisGatt.FourPartsCount | dataAnalysis/analysis_gatt.py:133-140 | with a plain properties part, the joined feature has four parts iff the other three parts hold no ':' |
| AnalysisGatt.FourPartsSplit | dataAnalysis/analysis_gatt.py:133-140 | four plain parts joined with ':' split back into exactly those parts |
| AnalysisGatt.FallbackUuidPlain | dataAnalysis/analysis_gatt.py:160-163 | when `uuid` is missing or empty, the characteristic part is the `uuid128` text, which has no ':' |
| AnalysisGatt.Jaccard | dataAnalysis/analysis_gatt.py:168-173 | the ratio's denominator is never 0 |
| AnalysisGatt.JaccardSymmetric | dataAnalysis/analysis_gatt.py:168-173 | the similarity is symmetric |
| AnalysisGatt.JaccardBounded | dataAnalysis/analysis_gatt.py:168-173 | the similarity lies between 0 and 1 |
| AnalysisGatt.JaccardOne | dataAnalysis/analysis_gatt.py:168-173 | the similarity is 1 iff the sets are equal and non-empty |
| AnalysisGatt.JaccardZero | dataAnalysis/analysis_gatt.py:168-173 | the similarity is 0 iff the sets are disjoint, which includes an empty union |
| AnalysisGatt.ProcessAllGattProfiles | dataAnalysis/analysis_gatt.py:196-207 | the loop keeps, in order, the address and feature set of each profile with a non-empty feature set |
| AnalysisGatt.KeepNonEmptyAligned | dataAnalysis/analysis_gatt.py:196-207 | the address and profile lists are equally long, no longer than the input, and every kept set is non-empty |
| AnalysisGatt.KeepNonEmptyConcat | dataAnalysis/analysis_gatt.py:196-207 | keeping is done profile by profile, in order |
| AnalysisGatt.KeptOne | dataAnalysis/analysis_gatt.py:196-207 | one profile is dropped iff it has no characteristic, and otherwise kept with its address or "N/A" |
| AnalysisGatt.Chosen | dataAnalysis/analysis_gatt.py:253-263 | the chosen indices lie below the shorter list's length |
| AnalysisGatt.Pick | dataAnalysis/analysis_gatt.py:253-263 | picking yields the elements at the chosen indices |
| AnalysisGatt.FilterChangedProfiles | dataAnalysis/analysis_gatt.py:253-263 | the addresses and profiles kept are those at the same chosen indices, so they stay aligned |
| AnalysisGatt.ChosenMembership | dataAnalysis/analysis_gatt.py:253-263 | index `i` is kept iff it is within both lists and the upper-cased address is in the filter list |
| AnalysisGatt.ChosenAscending | dataAnalysis/analysis_gatt.py:253-263 | the kept indices are strictly increasing, so order is preserved |

## Left out

- Radio, controller and stack bring-up, NVS, UART driver installation and task creation are linear vendor call sequences with nothing to prove. The outcomes the code reads from the stack are parameters: an accepted open, a discovery answer, an `fwrite` count, a received queue item.
- Semaphores, mutexes, task delays, watchdog resets and the interleaving of tasks are left out. Each task's loop body is modelled as one atomic pass.
- `dumpState`, `gapEvtToString`, `esp_gatt_status_to_str`, `print_char_properties` and all log output are diagnostics.
- `esp_gap_cb` (device_interrogator.cpp:417-443) logs, and it releases a slot only when `should_force_unregister` is set. No code sets that flag: the assignment at line 261 is commented out. The model keeps the flag, which is always false, and leaves the callback out.
- Code after `esp_restart` never runs. `TimeoutEnforcerPass` ends with a `Restart` action.
- The tick is one parameter per atomic pass. The pending monitor reads it once per slot (device_interrogator.cpp:569) and the read-queue drain once per read (interrogator_event_loop.cpp:196); the model uses one tick for the whole pass, so a tick that advances during a pass is left out.
- The status `esp_ble_gattc_get_all_char` returns is only logged. The model keeps whatever elements it reports.
- `MAX_SERVICES_PER_PROFILE` is never enforced by the source, and not by the model.
- TickType_t arithmetic is modelled modulo 2^32 in `Elapsed`.
- The `%x` conversion that `parse_bdaddr_str` uses is the model's `ScanHex`. The parsing lemmas also hold for any conversion with the same two structural properties (`ReadsHexPairs`, `ReadsPrefix`).
- `atoi` and the number conversions of Python's `int()` and `uuid.UUID()` are modelled on the spellings the firmware and the scripts produce (decimal, hex, optional sign, braces and hyphens). Exotic spellings, such as underscores in Python literals, are not.
- Upper and lower case are mapped on ASCII only.
- `bytes_to_unicode` (UTF-8 decoding with replacement) is a function parameter, `Decoder`. The `bluetooth_numbers` and `custom_uuid` tables are map parameters.
- analysis_gatt.py: JSON splitting and loading of the dump file, printing, plotting and the similarity matrix are I/O.
- analysis_gatt.py: `test_for_apple` is never called by the pipeline.
- analysis_gatt.py: `parse_gatt_json` groups and prints features sorted. Only its four-part filter is modelled (`FeatureParts`).
- AnalysisGatt: JSON `uuid` values that are not strings are not modelled; a present `uuid` is a string.
- AnalysisGatt: a `remote_bda` key present with the value null is not modelled. `Option` covers only a missing key, which gives "N/A".
- Jaccard similarity is a `Ratio` of two naturals rather than a float, so the 0.0 for an empty union is the ratio 0/1.
- process_scanner_files.py: the CSV writer and the file read. The rows are a sequence of values.
- process_interrogator_files.py: `parse_gatt_json` (line 128) and the directory walk that calls it split the dump into JSON objects, load them and write text. This is file and JSON I/O; the per-field decoders it calls are modelled.
- mac_cache.cpp: the hash map of nodes and the doubly-linked list are a map and a sequence. The list's head and tail are its first and last elements, so "head is null iff tail is null" holds by construction and is not stated separately; `prev`/`next` aliasing is not modelled.
- collector-ad.cpp: when an event's 8-bit data total is 0, its report data is not walked and the name table entries are sent as they stand. The corrected model (`CollectorAd.Step`) clears the whole table after each event, so such reports carry no name; `AsWrittenResendsStaleName` shows the as-written case.
- collector-ad.cpp: a failed `realloc` (lines 185-218) breaks out of the worker's loop. The model assumes allocation succeeds.
- collector-ad.cpp: the names point into the HCI packet buffer; the model copies the bytes.
- `LeAdvertisingReport` slots the decoder does not reach keep their previous contents. The model states this and no more.
- The console sink's verbose mode: `VERBOSE_PRINT` is constant false, so only the one-line form is modelled.
- device_database.cpp, main.cpp, beeper.c and the other analysis scripts are not part of this model.
- UartController.UartController.PrintAdvertisingSingleReport: sends the corrected `CsvLine`, with a comma between the RSSI and the file name. The source formats `%d%s` whenever a file name is set (uart_controller.cpp:61), and the scanner always sets one (device_scanner.cpp:75-77), so every line it really sends is `CsvLineAsWritten`. That line is modelled and its consequence proved (`AsWrittenLosesScannerFilename`, `ScannerLineAsWrittenLosesFilename`).
- UartController.UartController.PrintAdvertisingReport: sends one corrected `CsvLine` per report, for the same reason.
- DeviceScanner.DeviceScanner.RouteOne: the UART line for an admitted report is the corrected `CsvLine`, not the `%d%s` line of uart_controller.cpp:61.
- DeviceScanner.DeviceScanner.RouteReports: the UART lines are corrected `CsvLine`s, as for `RouteOne`.
- DeviceScanner.DeviceScanner.ProcessPacket: the UART lines are corrected `CsvLine`s, as for `RouteOne`.
- DeviceScanner.DeviceScanner.HciEvtProcess: the UART lines are corrected `CsvLine`s, and the packet goes through the bounds-checked `Decode`, not the as-written decoder that reads past a truncated packet.
- HciEventParser.FillAdvReport: is the bounds-checked decoder, the corrected half of the first finding. The firmware's decoder is `AsWrittenDecode`; `AsWrittenOverrunsAreRefused` shows the two agree except where the as-written one reads past the packet.
- HciEventParser.ReadReport: reads only within the packet, as `FillAdvReport` does.
- CollectorAd.ParseGrouped: refuses an event whose fields would pass the end of the packet. The worker never consults `hci_data->len` (collector-ad.cpp:160-343) and reads on into stale bytes of the ring slot, or past the last slot, and still sends frames; those bytes are not part of the model.
- CollectorAd.ReadPacket: returns None where a read would pass the packet's end, as `ParseGrouped` refuses.
- CollectorAd.Step: sends nothing for an event whose fields pass the packet's end, where the source sends frames built from stale bytes.
- CollectorAd.Collector.HciEvtProcess: sends nothing for an event whose fields pass the packet's end, as `Step`.
- CollectorAd.StepAsWritten: a table entry that `malloc` or `realloc` has just made (collector-ad.cpp:146, 208) is uninitialized in C; the model takes it as empty (no name), so a newly grown table sends no name from such an entry.
- DeviceInterrogator.DispatchedSlotTimesOut: the timeouts are counted in ticks at one tick per millisecond. The source converts with `pdMS_TO_TICKS(75*1000)` and `pdMS_TO_TICKS(120000)` (device_interrogator.cpp:248, 575), and the tick rate (`CONFIG_FREERTOS_HZ`) is set in the build configuration, which is not part of this model; at another rate the bounds 75000 and 120000 scale with it.
- DeviceInterrogator.Unexpired: the 120000 bound is in ticks at one tick per millisecond, as for `DispatchedSlotTimesOut`.
- DeviceInterrogator.Interrogator.QuestionerLine: takes one whole line. The task reads at most 127 bytes at a time with a 20 ms timeout (device_interrogator.cpp:98) and cuts each read at `\n` with `strtok_r` (line 102), so a line split across two reads arrives as two pieces, each parsed on its own. A cut between the line's second and fifth comma leaves two pieces with too few fields, and the request is lost. A cut inside the timestamp leaves a tail that still parses, and a request is queued whose timestamp holds only the last digits. A cut between the first and second comma leaves a tail whose fields are shifted by one, so its address field holds the data length, which is not an address, and the task ends. A cut inside the RSSI or the file name leaves a head that still parses, with that field shortened. The reads themselves and this splitting are not modelled.

## Findings

| source | as written | input that shows it | evidently intended | confidence | as-written member | corrected member |
|---|---|---|---|---|---|---|
| GattSnatcher/main/hci_event_parser.cpp:60-95 | the end pointer is computed but never compared, and every `ESP_ERR_INVALID_SIZE` check is commented out, so a truncated report is read past the end of the packet | `04 3E 0B 02 01 00 00 FF EE DD CC BB AA 00` (one report, no data, RSSI byte missing) | refuse a report that does not fit with `ESP_ERR_INVALID_SIZE` | not executed | HciEventParser.AsWrittenReadsPastEnd | HciEventParser.Decode |
| GattSnatcher/main/uart_controller.cpp:61 | with a file name set, the format is `%d%s` with no comma between the RSSI and the name, so `parseAdvReportFromString` finds no seventh field and the interrogator loses the file name | any report sent while the scanner writes `/storage/scanner_log_0.bin` | `%d,%s`, so that the name is the field after the RSSI | not executed | UartController.AsWrittenLosesScannerFilename | UartController.CsvRoundTrip |
| GattSnatcher/main/collector-ad.cpp:340 | the reset clears `sizeof(char*) * MAX_REPORT_COUNT` bytes of the name table, but each entry is eight bytes (a length and a pointer), so only the first half of the entries is cleared and the rest keep the previous event's names | a two-report event whose second report has the complete local name `[x]`, then a two-report event without data: the second report is sent again with the name `[x]` | clear every entry (`sizeof(local_name_t) * MAX_REPORT_COUNT`) | not executed | CollectorAd.AsWrittenResendsStaleName | CollectorAd.Step |
