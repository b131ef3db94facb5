# Parking system core, modelled in Dafny

The parking system collects positions from devices in cars and stores them on a server.
This project models the parts of that system that make decisions, and proves what they promise.

- **Device side.** A UART receive loop frames 13-byte messages that start with `D` or `S` (`uart_framing.dfy`). A formatter turns each 13-character line into `<status>: x AA.BB y CC.DD z EE.FF` (`data_formatter.dfy`). A packet formatter renders an operation code and three 16-bit coordinates in hundredths (`packet_format.dfy`). A rewriter compacts the GPS log into `D:` and `S: ` lines (`gps_rewrite.dfy`).
- **Server ingestion.** Client handlers split each received chunk into lines with `strtok` and copy every line over a 1024-byte shared-memory slot. A drain worker appends a non-empty slot to a log file, forwards it to the database FIFO and zeroes the slot. It ignores whether the FIFO write succeeded, and a write with no reader (`SIGPIPE`) kills it between the log line and the clearing of the slot. A change notifier sends a fixed notice when the slot differs from what it last saw (`pipeline.dfy`). A counting semaphore of ten tokens admits clients (`admission.dfy`).
- **Database writer.** It parses `<id>: <status>: x <n> y <n> z <n>` records, as `sscanf` reads them, from the FIFO or from the log. It issues one SQLite `INSERT` per record that parses (`store_writer.dfy`). As shipped, the program reads only the FIFO: its call of the data-file pass is commented out (Server/insert_data_from_giis_shm.c:203), and the model describes that pass as the function the program would call.
- **Price reconciliation.** It loads `city, price` lines and the `Prices` table into arrays that start with room for ten and double when full. It then updates changed prices, inserts missing cities and deletes table cities the file does not name (`price_file.dfy`, `price_table.dfy`). The same tool also exists as a header-split copy in `Server/build/core/src/update_prices.c`, which has the same logic; the table cites the `Server/build/prkdb` copy. An earlier update-only tool (`test_db/update_prices.c`) is modelled beside it.
- **Configuration.** The GPS data extractor reads `SOURCE_DIR=`, `GPS_DATA_DIR=` and `TEMP_DIR=` lines into three path buffers (`config.dfy`).

`text.dfy` and `numbers.dfy` hold the C library behaviour these parts rely on:
- C strings as everything before the first NUL;
- `strncpy`, and the pieces successive `fgets` calls return;
- the `strtok` tokens on newline;
- the decimal subset of `strtod`, and `%.Nf` rendering of exact decimals.

Process loops that change state are Dafny classes and methods over arrays and fields. Each method is proved against a function of its inputs and old state. Interleavings, round trips and invariants are lemmas about those functions.

Three places where the code does something other than its comments suggest are modelled as the code is written:
- **Leaked admission token.** A handler that cannot attach the shared segment exits without returning its token. Ten such clients starve the server for good (`Admission.AttachFailureLeaks`, `Admission.ServerStarves`).
- **Lines split across receives.** Nothing carries over between `recv` calls, so a line split across two receives is handed off as two lines (`Pipeline.SplitLineTwoWrites`).
- **Long table cities.** The price tool's table loader does not truncate a city of a hundred bytes or more. Its `%99[^|]` field stops short of the separator, the next conversion fails and loading ends there (`PriceFile.LongCityStops`).

A few smaller points of the code are also proved rather than assumed:
- **No-op trim.** The price file's "trim" changes nothing, so cities keep their spaces (`PriceFile.Trim`).
- **Whitespace before a table city.** The `\n` directive after each table price swallows any whitespace that starts the next row's city, so a readable location does not start with whitespace (`PriceFile.Readable`).
- **Unique names.** The price tool's comment assumes unique city names and sorted data. The reconciliation theorem holds without either: the last file line for a city wins (`PriceTable.Reconcile`).

## Model

| member | source | states |
|---|---|---|
| Text.Strncpy | Server/build/core/src/server.c:141 | a copy of exactly the destination's size: the source's C string cut at that size, then NUL padding |
| Text.StrncpyReadsBack | ParkSys/build/vgps/ext_data/src/config.c:34 | a source shorter than the destination is copied terminated, and reads back as exactly itself |
| Text.Fgets | Server/build/prkdb/update_prices.c:78 | one `fgets` stores the piece and a terminator, and the rest of the buffer keeps what it held |
| Text.FgetsLinesPartition | ParkSys/build/vgps/ext_data/src/config.c:30 | the pieces successive `fgets` calls return, joined, are the whole file: nothing is lost or duplicated |
| Text.FgetsOfWholeLines | ParkSys/build/vgps/ext_data/src/config.c:30 | a file whose lines all fit the buffer is read one line per call |
| Text.Tokens | Server/build/core/src/server.c:131-146 | the `strtok` tokens on newline are never empty, never hold a newline and take their bytes from the input |
| Text.TokensJoinLines | Server/build/core/src/server.c:131-146 | tokenizing newline-terminated lines gives back exactly those lines, in order |
| Pipeline.Boot | Server/giis.c:75-108 | at start the slot is all zeros, so its text is empty; the drain worker runs only if both the log and the FIFO opened |
| Pipeline.Write | Server/build/core/src/server.c:138-144 | a hand-off replaces the whole 1024-byte slot and changes nothing else |
| Pipeline.WriteReadsBack | Server/build/core/src/server.c:141 | a line of at most 1024 bytes with no NUL reads back from the slot as itself, and no byte of an earlier, longer value survives |
| Pipeline.FullLineUnterminated | Server/build/core/src/server.c:141 | a line of 1024 bytes or more fills the slot with its first 1024 bytes and leaves no NUL in it, so the slot holds no terminated C string |
| Pipeline.WriteAll | Server/build/core/src/server.c:133-147 | after several hand-offs the slot is what the last hand-off wrote; with no lines it is unchanged |
| Pipeline.ChunkLines | Server/build/core/src/server.c:130-131 | every line `strtok` yields is non-empty and newline-free, and no longer than the chunk |
| Pipeline.ReceiveLastLine | Server/build/core/src/server.c:127-147 | after a chunk with lines the slot holds that chunk's last line and nothing else changes; a chunk of newlines only changes nothing |
| Pipeline.DrainEmpty | Server/giis.c:118 | a pass over an empty slot changes nothing, however the FIFO write would have ended |
| Pipeline.DrainRecord | Server/giis.c:118-133 | a non-empty slot is appended to the log with one newline whatever the FIFO write does; it reaches the FIFO, with no separator, only when the write succeeds; unless the write kills the worker (no reader, `SIGPIPE`), the slot is zeroed and the worker goes on, even after a failed write; a killed worker leaves the slot as it was and is down; the notifier's state is untouched |
| Pipeline.DrainIdempotent | Server/giis.c:132 | the pass right after a drain does nothing, whatever either write does, so a value is drained once |
| Pipeline.CheckNotifies | backup.dvlp1.Tx.Rx.Bytes/Server/build/core/src/listener.c:90-104 | a 15-byte notice is sent exactly when the running notifier sees a slot text different from the last one and the FIFO opens; the slot, log and database FIFO are untouched, and the text seen is remembered |
| Pipeline.CheckIdempotent | backup.dvlp1.Tx.Rx.Bytes/Server/build/core/src/listener.c:91-93 | a second check with the slot unchanged sends nothing |
| Pipeline.ClearedSlotNotifies | backup.dvlp1.Tx.Rx.Bytes/Server/build/core/src/listener.c:91-102 | the drain zeroing a slot the notifier saw non-empty (any write that does not kill the worker) is itself reported as a change |
| Pipeline.EmptyAtStartupSilent | backup.dvlp1.Tx.Rx.Bytes/Server/build/core/src/listener.c:85-91 | a slot that is empty when the notifier starts is never reported |
| Pipeline.RunKeepsInvariant | Server/giis.c:118-133 | over any interleaving, and any outcome of each FIFO write, the log holds exactly the drained records, one per line, and the FIFO the concatenation of those whose write succeeded, a subsequence of them; text left in the slot is the last line written, and the drained records are a subsequence of the lines before it |
| Pipeline.DrainedAtMostOnce | Server/giis.c:118-132 | each line written is drained at most once, and drained records come out in write order |
| Pipeline.LogHoldsDrainedRecords | Server/giis.c:121-125 | from boot the log splits back into exactly the drained records, one per line; the FIFO is the concatenation of the subsequence of them whose write succeeded, which is all of them when every write succeeds |
| Pipeline.AllSentForwardsAll | Server/giis.c:125 | when every FIFO write succeeds, the records forwarded are exactly the records drained |
| Pipeline.OnlyLastWriteDrained | Server/build/core/src/server.c:141 | of lines written between two drains only the last is ever drained, whatever the write does |
| Pipeline.DrainAfterReceive | Server/giis.c:118-125 | while the drain worker is up, a drain right after a chunk with lines takes that chunk's last line into the log, whatever the write does |
| Pipeline.DrainerStaysUp | Server/giis.c:111-125 | only a FIFO write with no reader (`SIGPIPE`) stops the drain worker, and nothing starts it |
| Pipeline.OnlyAppends | Server/giis.c:92 | the log and both FIFOs are only ever appended to |
| Pipeline.StoppedStaysSilent | Server/giis.c:92-108 | a drain worker that failed to open the log or the FIFO never writes either; a stopped notifier sends nothing more |
| Pipeline.NotifierStaysDown | backup.dvlp1.Tx.Rx.Bytes/Server/build/core/src/listener.c:96-100 | a notifier that exited on a failed FIFO open never comes back, and neither does a drain worker that stopped |
| Pipeline.OneLineChunk | Server/build/core/src/server.c:131 | a newline-terminated line is one chunk line |
| Pipeline.SplitLineTwoWrites | Server/build/core/src/server.c:127-131 | nothing carries over between receive calls: a line split across two chunks is handed off as two lines |
| Pipeline.SameLineLoggedTwice | Server/giis.c:117-118 | the worker compares nothing: the same line sent twice, with a drain after each, is logged twice, unless the first write killed the worker |
| Pipeline.Ingest.constructor | Server/build/core/src/server.c:215 | a fresh zero-filled segment, in the boot state |
| Pipeline.Ingest.Handoff | Server/build/core/src/server.c:141 | the `strncpy` into the array leaves the state the pure hand-off describes |
| Pipeline.Ingest.HandleChunk | Server/build/core/src/server.c:129-147 | the tokens found are the chunk's lines, and the slot ends as one receive step describes |
| Pipeline.LineEnd | Server/build/core/src/server.c:131-146 | the token starting at a non-newline byte ends at the next newline or at the end of the string, and holds no newline |
| Pipeline.Ingest.HandleClient | Server/build/core/src/server.c:127-150 | the state is the run of the received chunks; `tbrecv` ends as the last chunk's size, and is never assigned when there is no chunk |
| Pipeline.Ingest.SlotLength | Server/giis.c:118 | `strlen` of the slot equals the length of its C string, never reading past the segment |
| Pipeline.Ingest.DrainPass | Server/giis.c:113-136 | one pass of the worker, given how its FIFO write ends, leaves the state one drain step describes: log first, then the write, then the slot cleared by a worker that survived |
| Pipeline.Ingest.CheckPass | backup.dvlp1.Tx.Rx.Bytes/Server/build/core/src/listener.c:88-104 | one pass of the notifier leaves the state one check step describes |
| Pipeline.HandedOff | Server/build/core/src/server.c:133-146 | handing off the next token writes it after the tokens already handed off, and the tokens still to come are unchanged |
| Pipeline.Receives | Server/build/core/src/server.c:127 | a handler's receive loop makes one receive event per chunk, in order |
| Pipeline.WrittenAreLines | Server/build/core/src/server.c:131-141 | every line written to the slot is non-empty and holds no newline and no NUL |
| Pipeline.NoDrainNoRecords | Server/giis.c:118-133 | events other than a drain pass take no record out of the slot |
| Admission.Initial | Server/build/core/src/server.c:223 | the counter starts with all ten tokens free, balanced |
| Admission.RoundBalanced | Server/build/core/src/server.c:240-263 | a pass keeps free + running + lost at ten; it blocks exactly when no token is free; a failed accept or thread creation gives the token back and changes nothing |
| Admission.EndBalanced | Server/build/core/src/server.c:109-124 | a handler ending keeps the count; free + running drops by one when the handler could not attach the segment |
| Admission.AttachFailureLeaks | Server/build/core/src/server.c:109-124 | while no handler has failed to attach, free + running is exactly ten; an attach failure leaves it at nine |
| Admission.LeaksExhaust | Server/build/core/src/server.c:109-124 | after n admitted clients that each fail to attach, n tokens are lost for good |
| Admission.ServerStarves | Server/build/core/src/server.c:241 | after ten such clients every later pass of the accept loop blocks |
| Admission.RoundsBalanced | Server/build/core/src/server.c:230-267 | any sequence of passes keeps the count and loses no token |
| Admission.PassesRun | Server/build/core/src/server.c:230 | `running` is read only at the loop head: every pass before the last one that starts ran unsignalled, and passes stop only after a signalled one |
| Admission.Server.constructor | Server/build/core/src/server.c:223 | ten free tokens, running |
| Admission.Server.Pass | Server/build/core/src/server.c:240-263 | one pass of the accept loop updates the counters as the ledger step says, and the stop signal clears `running` |
| Admission.Server.AcceptLoop | Server/build/core/src/server.c:230-267 | the loop runs exactly the passes that start before the stop signal, and the counters are those of the ledger over them |
| Admission.Server.HandlerDone | Server/build/core/src/server.c:159-166 | a finishing handler returns its token, or loses it when it never attached |
| StoreWriter.NonSpaceRun | Server/insert_data_from_giis_shm.c:61 | the run stops exactly at the first whitespace character |
| StoreWriter.ScanString | Server/insert_data_from_giis_shm.c:61 | `%17s` takes between 1 and 17 non-whitespace characters after skipping whitespace, or fails |
| StoreWriter.Lit | Server/insert_data_from_giis_shm.c:61 | an ordinary format character matches exactly when it is the next input character, and consumes it |
| StoreWriter.CoordsRoundTrip | Server/insert_data_from_giis_shm.c:61 | ` x %lf y %lf z %lf` reads back the three numbers a producer wrote, leaving the rest untouched |
| StoreWriter.HeadRoundTrip | Server/insert_data_from_giis_shm.c:61 | `%17s: %c:` reads back a 17-character identifier and a visible status |
| StoreWriter.ScanIdExact | Server/insert_data_from_giis_shm.c:56-61 | `%17s` on a 17-character word takes exactly that word, even if a colon follows directly |
| StoreWriter.ParseEncode | Server/insert_data_from_giis_shm.c:61 | every record the format can carry (17-character identifier, visible status, any coordinates) parses back to itself, whatever follows that cannot continue the z number (not a digit, point, `e`, `E`, `x` or `X`) |
| StoreWriter.ShortIdRejected | Server/insert_data_from_giis_shm.c:56-61 | an identifier shorter than 17 characters fails to parse, because `%17s` swallows the colon after it |
| StoreWriter.ShortWord | Server/insert_data_from_giis_shm.c:61 | a word shorter than the field followed by `": "` is read with its colon, so the head fails |
| StoreWriter.RecordFails | Server/insert_data_from_giis_shm.c:61-65 | a line whose head does not convert yields no record |
| StoreWriter.DocumentedExample | Server/insert_data_from_giis_shm.c:61 | `AA:BB:CC:DD:EE:FF: D: x 12.34 y 56.78 z 90.12` parses to that identifier, status `D` and the three values |
| StoreWriter.Fixed2 | Server/insert_data_from_giis_shm.c:69 | `%.2f` output always has two decimals |
| StoreWriter.Fixed2Nearest | Server/insert_data_from_giis_shm.c:69 | a value with more than two decimals is printed within half a hundredth, and exactly when it is whole hundredths |
| StoreWriter.Fixed2Examples | Server/insert_data_from_giis_shm.c:69 | a tie goes to the even hundredth: 1.125 prints as 1.12, 1.375 as 1.38, -1.125 as -1.12; 1.126 as 1.13 |
| StoreWriter.Fixed2Sign | Server/insert_data_from_giis_shm.c:69 | rounding to hundredths keeps a value on its side of zero, or takes a negative one to zero |
| StoreWriter.Fixed2TextRender | Server/insert_data_from_giis_shm.c:69 | the printed text is the canonical text of the rounded value, except that a negative value rounding to zero keeps its minus sign |
| StoreWriter.Fixed2TextExamples | Server/insert_data_from_giis_shm.c:69 | -0.001 and -0.004 print as `-0.00`, -0.006 as `-0.01`, and 0.001 as `0.00` |
| StoreWriter.Fixed2Exact | Server/insert_data_from_giis_shm.c:69 | a value with at most two decimals is printed with its exact value |
| StoreWriter.Truncate | Server/insert_data_from_giis_shm.c:68-69 | `snprintf` keeps a prefix of at most size - 1 characters, and the whole text when it fits |
| StoreWriter.InsertCommand | Server/insert_data_from_giis_shm.c:68-69 | the command fits the 256-byte buffer and is a prefix of the full insert text; it is the whole text exactly when the four fields take at most 153 characters, and otherwise it is cut to 255 characters |
| StoreWriter.ParsedRecordFits | Server/insert_data_from_giis_shm.c:56-69 | a record with an identifier `%17s` can read and coordinates whose counts of hundredths have at most 42 digits gives an uncut command |
| StoreWriter.LongCoordinateCut | Server/insert_data_from_giis_shm.c:68-69 | an x coordinate of 153 or more integer digits makes `snprintf` cut the command to 255 characters, a strict prefix of the insert text |
| StoreWriter.RenderedBeyond | Server/insert_data_from_giis_shm.c:69 | `%.2f` of a number of at least 10^k has more than k characters |
| StoreWriter.ProcessLine | Server/insert_data_from_giis_shm.c:61-76 | a line issues a command exactly when all five fields convert, and then the insert for that record |
| StoreWriter.Issued | Server/insert_data_from_giis_shm.c:118-121 | lines processed in order issue at most one command each |
| StoreWriter.IssuedAppend | Server/insert_data_from_giis_shm.c:118-121 | the commands of two runs of lines are those of the first then those of the second |
| StoreWriter.IssuedOne | Server/insert_data_from_giis_shm.c:120 | one line issues its command, if any |
| StoreWriter.ConcatenatedRecords | Server/insert_data_from_giis_shm.c:159-164 | several records arriving in one read give a single insert, for the first, when the text after the first cannot continue its z number: it does not start with a digit (see `NextRecordExtendsZ`), a point, `e`, `E`, `x` or `X` |
| StoreWriter.NextRecordExtendsZ | Server/insert_data_from_giis_shm.c:61-69 | when the next record in the same read starts with digits (a MAC address such as `12:...`), `%lf` reads them into the first record's z: one insert, for the first record with z extended by those digits, a different value whenever the digits are not all zero |
| StoreWriter.ExtendedFields | Server/insert_data_from_giis_shm.c:61 | ` x %lf y %lf z %lf` on a coordinate text followed by more digits reads x and y back and z extended by the digits |
| Numbers.ScanRenderExtended | Server/insert_data_from_giis_shm.c:61 | `%lf` on a rendered fraction followed by digits reads one number: the fraction with those digits appended |
| Numbers.ExtendedValue | Server/insert_data_from_giis_shm.c:61 | appending digits that are not all zero to a fraction changes its value |
| StoreWriter.FifoRun | Server/insert_data_from_giis_shm.c:155-177 | at most one processed read per event, and every processed read is 1 to 255 bytes, as a `read` of `sizeof(line) - 1` returning more than 0 delivers |
| StoreWriter.FifoCommands | Server/insert_data_from_giis_shm.c:156-177 | at most one command per FIFO event |
| StoreWriter.ReopenResumes | Server/insert_data_from_giis_shm.c:159-176 | a read of 0 bytes followed by a good reopen, or a failed read, changes nothing and reading resumes |
| StoreWriter.FailedReopenStops | Server/insert_data_from_giis_shm.c:170-175 | a failed reopen ends the reader: nothing after it is processed |
| StoreWriter.DataOf | Server/insert_data_from_giis_shm.c:159-164 | at most one buffer per event |
| StoreWriter.FifoReadsEachChunk | Server/insert_data_from_giis_shm.c:156-177 | without a failed reopen each read's bytes are processed on their own, in order |
| StoreWriter.DataFileRun | Server/insert_data_from_giis_shm.c:92-114 | an open, lock or `fdopen` failure processes no line |
| StoreWriter.Terminated | Server/insert_data_from_giis_shm.c:118 | each line followed by its newline |
| StoreWriter.DataFileReadsLines | Server/insert_data_from_giis_shm.c:116-121 | a file of short newline-terminated lines issues the commands of those lines, in file order |
| StoreWriter.FgetsOfLines | Server/insert_data_from_giis_shm.c:117-118 | `fgets` with a 256-byte buffer returns each short line with its newline |
| StoreWriter.Writer.constructor | Server/insert_data_from_giis_shm.c:189 | no line processed yet, FIFO closed |
| StoreWriter.Writer.Line | Server/insert_data_from_giis_shm.c:54-77 | processing a line records it; the FIFO state is unchanged |
| StoreWriter.Writer.DataFile | Server/insert_data_from_giis_shm.c:89-134 | the `fgets` loop processes every line of the file, and nothing when the file cannot be opened, locked or wrapped |
| StoreWriter.Writer.Fifo | Server/insert_data_from_giis_shm.c:145-178 | an open failure processes nothing; otherwise every read the loop hands over, each of 1 to 255 bytes, is processed in order, and the FIFO stays open unless a reopen failed |
| StoreWriter.WriterCommands | Server/insert_data_from_giis_shm.c:116-177 | the commands issued by a data-file pass or a FIFO pass are those of the lines or reads they processed |
| UartFraming.Step | bbg/build/src/main.c:96-142 | one byte keeps the framing invariant; a message is completed only at 13 bytes, starts with `D` or `S`, and resets the state to idle; inside a message every byte is appended; while idle only `D` or `S` starts one |
| UartFraming.Frames | bbg/build/src/main.c:92-152 | over any bytes the framing invariant holds and every completed message is a 13-byte message starting with a start byte |
| UartFraming.FramesAppend | bbg/build/src/main.c:92-152 | receiving two runs of bytes one after the other is receiving their concatenation |
| UartFraming.IdleDiscards | bbg/build/src/main.c:101-109 | while idle, bytes other than `D` and `S` are discarded |
| UartFraming.MessagePrefix | bbg/build/src/main.c:104-114 | the first bytes of a message, start byte included, are held pending and nothing is delivered |
| UartFraming.OneMessage | bbg/build/src/main.c:111-127 | a message received from idle is delivered whole, once, and the state is idle again |
| UartFraming.NoiseThenMessage | bbg/build/src/main.c:101-127 | noise without start bytes in front of a message is dropped and the message is delivered |
| UartFraming.FramesOfMessages | bbg/build/src/main.c:92-152 | messages sent back to back are delivered one for one, in order; a `D` or `S` inside a message never restarts framing |
| UartFraming.Texts | bbg/build/src/main.c:119-123 | one text handed to the formatter per message |
| UartFraming.Received | bbg/build/src/main.c:95-96 | a failed read contributes no byte |
| UartFraming.CStrAppendNul | bbg/build/src/main.c:119 | the terminator written after the thirteenth byte does not change the C string |
| UartFraming.Framer.Pending | bbg/build/src/main.c:78-82 | the buffer prefix of `message_length` bytes satisfies the framing invariant |
| UartFraming.Framer.constructor | bbg/build/src/main.c:78-82 | idle, nothing delivered |
| UartFraming.Framer.Receive | bbg/build/src/main.c:95-148 | a failed read changes nothing; a byte moves the state as one framing step, every write stays inside the 14-byte buffer, and a completed message is handed over once with one `ACK` |
| UartFraming.Framer.Run | bbg/build/src/main.c:92-152 | the loop over the reads ends in the state and with the deliveries that framing the received bytes gives |
| DataFormatter.Pair | bbg/build/src/data_formatter.c:64-69 | on two decimal digits the pair's value is the two-digit number they spell, between 0 and 99 |
| DataFormatter.Int02 | bbg/build/src/data_formatter.c:76-77 | `%02d` prints at least two characters whose digits spell the value, with a leading minus sign for a negative one |
| DataFormatter.FormatDataLine | bbg/build/src/data_formatter.c:48-79 | a line is printed exactly when its C string is 13 characters long |
| DataFormatter.PairVerbatim | bbg/build/src/data_formatter.c:64-77 | two digits are printed as themselves |
| DataFormatter.Layout | bbg/build/src/data_formatter.c:76-77 | the printed line of a 13-character line is 27 characters long |
| DataFormatter.FormatDigits | bbg/build/src/data_formatter.c:64-77 | a status character and twelve digits print as `s: x d1d2.d3d4 y d5d6.d7d8 z d9d10.d11d12` followed by a newline, the digits verbatim |
| DataFormatter.Unformat | bbg/build/src/data_formatter.c:76-77 | reading the status and digits back from their fixed positions gives 13 characters |
| DataFormatter.UnformatLayout | bbg/build/src/data_formatter.c:76-77 | reading back the layout gives the line it was made from |
| DataFormatter.FormatRoundTrip | bbg/build/src/data_formatter.c:64-77 | formatting a digit line gives 27 characters from which the line is recovered |
| DataFormatter.NonDigitPrintedAsIs | bbg/build/src/data_formatter.c:64-69 | digits are not validated: `D/50000000000` gives -5 for the first pair, printed as `-5`, and the line comes out one character short |
| DataFormatter.Chunk | bbg/build/src/data_formatter.c:110-113 | every chunk holds 1 to 13 characters, and all but the last exactly 13 |
| DataFormatter.Chunks | bbg/build/src/data_formatter.c:110 | a message of n characters is cut into ceil(n/13) chunks, the k-th starting at 13k |
| DataFormatter.ChunksCover | bbg/build/src/data_formatter.c:110-113 | the first k chunks concatenate to the first 13k characters of the message |
| DataFormatter.ChunksConcat | bbg/build/src/data_formatter.c:110-113 | the chunks concatenate to the whole message, in order |
| DataFormatter.ShortLastChunkRejected | bbg/build/src/data_formatter.c:50-54 | a message whose length is not a multiple of 13 ends with a short chunk, which prints nothing |
| DataFormatter.FramedMessageOneLine | bbg/build/src/data_formatter.c:106-117 | a message framed by the receive loop is one chunk, printed on its own |
| DataFormatter.ChunkCopy | bbg/build/src/data_formatter.c:112-113 | `strncpy` of 13 characters plus the terminator leaves the chunk as the line buffer's C string |
| DataFormatter.LoopLine | bbg/build/src/data_formatter.c:112-116 | the loop's line buffer prints as the chunk it holds |
| DataFormatter.SameText | bbg/build/src/data_formatter.c:50 | the printer sees only the C string of its argument |
| DataFormatter.OutputFile.constructor | bbg/build/src/data_formatter.c:99 | the file starts with the given contents |
| DataFormatter.OutputFile.ProcessReceivedMessage | bbg/build/src/data_formatter.c:97-120 | when the file cannot be opened nothing changes; otherwise the file, truncated by `"w"`, holds exactly the printed lines of the message's chunks, in order |
| PacketFormat.Hundredths | bbg/build/core/src/data_struct_format.c:54-58 | the text of `v / 100.0` with `%.2f` is 4 to 6 characters with the point third from the end |
| PacketFormat.HundredthsRender | bbg/build/core/src/data_struct_format.c:56-58 | the text is the whole part without padding, a point, and the two-digit remainder: the canonical text of the decimal v/100 |
| PacketFormat.LastTwoDigits | bbg/build/core/src/data_struct_format.c:56-58 | the decimal text of a number of three or more digits is that of the number divided by 100, then the last two digits |
| PacketFormat.HundredthsReadBack | bbg/build/core/src/data_struct_format.c:54-58 | reading a hundredths text back with `%lf` gives v/100 exactly |
| PacketFormat.HundredthsExamples | bbg/build/core/src/data_struct_format.c:54-58 | 500 prints as `5.00`, 7 as `0.07`, 65535 as `655.35` |
| PacketFormat.FormatText | bbg/build/core/src/data_struct_format.c:54-58 | the text starts with the operation code and is 23 to 29 characters long |
| PacketFormat.Snprintf | bbg/build/core/src/data_struct_format.c:54 | `snprintf` stores at most size - 1 characters and a NUL: the whole text when it fits, its prefix otherwise |
| PacketFormat.NeverTruncated | bbg/build/core/src/data_struct_format.c:41-54 | the text always fits the 50-byte buffer, so it is stored whole and NUL-terminated |
| PacketFormat.TextNoNul | bbg/build/core/src/data_struct_format.c:54-58 | with a non-zero operation code the text holds no NUL, so the stored C string is the whole text |
| PacketFormat.TextIsRecordTail | bbg/build/core/src/data_struct_format.c:54-58 | after the code and its colon the text is the coordinate part the database writer parses, and it reads back exactly the packet's coordinates in hundredths |
| PacketFormat.DocumentedExample | bbg/build/core/src/data_struct_format.c:54-58 | the packet `{ 'D', 100, 200, 300 }` prints as `D: x 1.00 y 2.00 z 3.00` |
| PacketFormat.PacketBytes | bbg/build/core/src/data_struct_format.c:91 | the packed packet is 7 bytes, the operation code first |
| PacketFormat.BytesRoundTrip | bbg/build/core/src/data_struct_format.c:91 | decoding the 7 bytes gives the packet back, and every 7 bytes are some packet's layout |
| PacketFormat.Formatter.constructor | bbg/build/core/src/data_struct_format.c:37-41 | segment not attached, process running |
| PacketFormat.Formatter.FormatDataStruct | bbg/build/core/src/data_struct_format.c:52-59 | the static buffer starts with the text and its NUL; the bytes after it keep what they held |
| PacketFormat.Formatter.CopyPacket | bbg/build/core/src/data_struct_format.c:91 | the segment holds exactly the packet's 7 bytes |
| PacketFormat.Formatter.GetFormattedData | bbg/build/core/src/data_struct_format.c:72-109 | a `shmget` or `shmat` failure ends the process with nothing written; otherwise the segment holds the packet, the static buffer holds the text, and that buffer is returned |
| PacketFormat.FormatTwice | bbg/build/core/src/data_struct_format.c:41-108 | two calls return the same static buffer, which then shows only the second packet's text |
| GpsRewrite.OpenAt | bbg/build/src/tmp/process_gps.c:34-36 | `strchr` for `(` finds one exactly when the line has one, and points just past the first |
| GpsRewrite.Rewrite | bbg/build/src/tmp/process_gps.c:29-43 | a line produces output exactly when it starts with `Data from GPS:`, or starts with `Static time:` and contains `(` |
| GpsRewrite.CutAt | bbg/build/src/tmp/process_gps.c:37-40 | the terminator goes on a `)` or on the string's own end |
| GpsRewrite.RewriteBuffer | bbg/build/src/tmp/process_gps.c:29-43 | the loop body writes the rewritten line of the buffer's C string and changes the buffer only by the terminator on the closing `)` |
| GpsRewrite.CutString | bbg/build/src/tmp/process_gps.c:39-41 | the terminator cuts the text after `(` at the `)`; on the string's own end it changes nothing |
| GpsRewrite.ProcessLocations | bbg/build/src/tmp/process_gps.c:7-52 | a file that cannot be opened gives `EXIT_FAILURE` and no output; otherwise the output is the rewritten buffers, in order, and the status `EXIT_SUCCESS` |
| GpsRewrite.DataLine | bbg/build/src/tmp/process_gps.c:29-32 | a `Data from GPS:` line becomes `D:` and the rest of the line, its leading space and newline kept |
| GpsRewrite.StaticLine | bbg/build/src/tmp/process_gps.c:33-42 | a `Static time:` line becomes `S: `, the text between the first `(` and the next `)`, and a newline |
| GpsRewrite.StaticUnclosed | bbg/build/src/tmp/process_gps.c:37-41 | without a `)` everything after `(` is kept, the original newline included, and a second newline added |
| GpsRewrite.StaticNoParen | bbg/build/src/tmp/process_gps.c:34-35 | a `Static time:` line without `(` produces nothing |
| GpsRewrite.Anchored | bbg/build/src/tmp/process_gps.c:29-33 | the tags match case-sensitively at column 0 only |
| GpsRewrite.GatherAppend | bbg/build/src/tmp/process_gps.c:27-44 | the output of two runs of buffers is the first run's followed by the second's |
| GpsRewrite.EmittedAppend | bbg/build/src/tmp/process_gps.c:27-44 | output keeps input order across any split of the buffers |
| GpsRewrite.ProcessedLines | bbg/build/src/tmp/process_gps.c:27 | a file of lines that fit the 256-byte buffer is rewritten line by line, in order |
| GpsRewrite.EmittedThree | bbg/build/src/tmp/process_gps.c:27-44 | three buffers give their three outputs in order |
| GpsRewrite.PositionStopOther | bbg/build/src/tmp/process_gps.c:27-44 | a position line, a stop line and a line of another kind give the position after `D:`, the stop's parenthesised text after `S: `, and nothing, in that order |
| GpsRewrite.ExampleLog | bbg/build/src/tmp/process_gps.c:27-44 | in the simulator's formats, a position, a stop and another line give `D: x 1.00 y 2.00 z 3.00`, `S: x 1.00 y 2.00 z 3.00` and nothing |
| Config.Prefix | ParkSys/build/vgps/ext_data/src/config.c:32-42 | each key's prefix is at least 9 characters and ends with `=` |
| Config.Match | ParkSys/build/vgps/ext_data/src/config.c:32-46 | a line is matched to a key only when it starts with that key's prefix, and to none when it starts with no prefix |
| Config.MatchExact | ParkSys/build/vgps/ext_data/src/config.c:32-42 | a line sets a key exactly when it starts with that key's prefix, whatever the order of the tests |
| Config.Cut | ParkSys/build/vgps/ext_data/src/config.c:34-45 | the stored path is the value up to, and without, its first newline |
| Config.Setting | ParkSys/build/vgps/ext_data/src/config.c:30-47 | a setting read from `fgets` buffers holds no NUL |
| Config.Stored | ParkSys/build/vgps/ext_data/src/config.c:34-44 | the caller's buffer keeps its length, and bytes from index size - 1 on are never written |
| Config.Assign | ParkSys/build/vgps/ext_data/src/config.c:34-35 | `strncpy` of size - 1 bytes then a terminator at the first newline (`strcspn`) leaves the padded copy and keeps the rest of the buffer |
| Config.StrncpyPadded | ParkSys/build/vgps/ext_data/src/config.c:34 | a copy shorter than the destination is padded with NULs and reads back as the value |
| Config.ReadConfig | ParkSys/build/vgps/ext_data/src/config.c:18-51 | a missing file returns -1 with the three buffers untouched; otherwise 0, and each buffer holds the last value set for its key, or is untouched when the key never appears |
| Config.ReadLine | ParkSys/build/vgps/ext_data/src/config.c:30-46 | one turn of the loop sets at most the buffer of the key the line starts with, keeping every buffer in step with the lines read so far |
| Config.ApplyLine | ParkSys/build/vgps/ext_data/src/config.c:32-46 | the loop body changes exactly the buffer of the key the line sets |
| Config.SettingNext | ParkSys/build/vgps/ext_data/src/config.c:30-47 | one more line either sets the key to its value or leaves the setting as it was |
| Config.ReadBack | ParkSys/build/vgps/ext_data/src/config.c:34-35 | the caller reads back the value up to its first newline; the copy is always terminated |
| Config.SettingFits | ParkSys/build/vgps/ext_data/src/config.c:28-34 | every stored value is shorter than the line buffer by at least its key's length |
| Config.LastWins | ParkSys/build/vgps/ext_data/src/config.c:30-47 | when line i sets a key and no later line does, the setting is line i's value |
| Config.NeverSet | ParkSys/build/vgps/ext_data/src/config.c:30-47 | a key is left unset exactly when no line sets it |
| Config.NotTrimmed | ParkSys/build/vgps/ext_data/src/config.c:34-35 | spaces after `=` and before the newline are kept |
| Config.Anchored | ParkSys/build/vgps/ext_data/src/config.c:32-42 | keys match case-sensitively and only at column 0 |
| Config.ExampleFile | ParkSys/build/vgps/ext_data/src/config.c:30-47 | a key given twice keeps its second value, and a key never given stays unset |
| Config.ThreeSettings | ParkSys/build/vgps/ext_data/src/config.c:30-47 | with three lines, the last line for a key wins and an absent key stays unset |
| Config.ExampleValue | ParkSys/build/vgps/ext_data/src/config.c:32-34 | a line of a prefix, a value and a newline sets its key to the value and the newline |
| PriceFile.Field | Server/build/prkdb/update_prices.c:87 | a `%99[^,]` field takes at most 99 bytes, none of them the stop byte, and ends early only at the stop byte |
| PriceFile.ScanNumberRest | Server/build/prkdb/update_prices.c:139 | a successful `%lf` consumes at least one byte of its input |
| PriceFile.Priced | Server/build/prkdb/update_prices.c:87 | a record is produced only when a number follows the city, and it keeps that city |
| PriceFile.ParseFileLine | Server/build/prkdb/update_prices.c:87-93 | an accepted line has a city of 1 to 99 bytes that is exactly the text before a comma and holds no comma |
| PriceFile.ParseTestLine | test_db/update_prices.c:21-24 | an accepted line has a non-empty city that is exactly the text before its first comma |
| PriceFile.Trim | Server/build/prkdb/update_prices.c:89-91 | writing a terminator at `strnlen` of the city leaves the city buffer unchanged |
| PriceFile.StoredCity | Server/build/prkdb/update_prices.c:147-149 | copying a scanned city with `strncpy` and terminating byte 99 stores the same C string that was scanned |
| PriceFile.PricedRow | Server/build/prkdb/update_prices.c:139 | after the bar separator a row needs a number; the record keeps the scanned city and reading it consumes input |
| PriceFile.ScanRow | Server/build/prkdb/update_prices.c:139 | a row read from the tool output consumes input and has a city of at most 99 bytes without NUL |
| PriceFile.DbRowsNext | Server/build/prkdb/update_prices.c:139-152 | the rows read are the first row followed by the rows read from what it leaves |
| PriceFile.EntriesNext | Server/build/prkdb/update_prices.c:78-94 | one more `fgets` buffer adds its entry, if it parses, after the entries before it |
| PriceFile.EntriesAppend | Server/build/prkdb/update_prices.c:78-94 | the entries of two runs of buffers are the entries of each, concatenated in order |
| PriceFile.EntriesSplit | Server/build/prkdb/update_prices.c:78-94 | splitting the buffers at any point splits the entries at the matching point |
| PriceFile.Reserve | Server/build/prkdb/update_prices.c:80-84 | a full array is replaced by a fresh one of twice the size holding the same entries; otherwise the array is kept; either way one more entry fits |
| PriceFile.AppendStep | Server/build/prkdb/update_prices.c:139-152 | appending a row to the rows already stored keeps the stored rows followed by the unread rows equal to the whole output |
| PriceFile.ReadPriceLine | Server/build/prkdb/update_prices.c:78-93 | one loop turn stores the parsed entry after the existing entries, or nothing, and keeps the capacity at ten or at most twice the count |
| PriceFile.ScanLine | Server/build/prkdb/update_prices.c:78-87 | the record read from a line is the parse of exactly the C string `fgets` stored |
| PriceFile.LoadFileData | Server/build/prkdb/update_prices.c:64-100 | returns 1 and no entries when the file cannot be opened; otherwise 0 and exactly the parsed lines in file order, with capacity ten doubled as needed |
| PriceFile.Append | Server/build/prkdb/update_prices.c:141-151 | one loop turn stores the row after the existing rows and keeps the capacity at ten or under twice the count |
| PriceFile.NextRow | Server/build/prkdb/update_prices.c:139 | the loop stops exactly when no row matches; otherwise the row read is the first of the remaining rows |
| PriceFile.LoadDbData | Server/build/prkdb/update_prices.c:119-158 | returns 1 and no rows when the tool cannot be started; otherwise 0 and every row up to the first mismatch, in order |
| PriceFile.SkipSpaces | Server/build/prkdb/update_prices.c:87 | the whitespace directive skips exactly the leading whitespace |
| PriceFile.LineSplit | Server/build/prkdb/update_prices.c:87 | both formats read a city of 1 to 99 bytes before a comma as that city and parse the price from what follows the comma |
| PriceFile.PricedOf | Server/build/prkdb/update_prices.c:87 | any whitespace followed by a written price reads back as that price |
| PriceFile.FileLineOf | Server/build/prkdb/update_prices.c:87 | a line made of a city, a comma, whitespace and a price parses back to that city and price in both formats |
| PriceFile.NoCommaSkipped | Server/build/prkdb/update_prices.c:87-93 | a line with no comma in its first hundred bytes is skipped |
| PriceFile.FormatsAgree | Server/build/prkdb/update_prices.c:87 | on a buffer of at most 99 bytes the two formats accept the same lines with the same results |
| PriceFile.FileCities | Server/build/prkdb/update_prices.c:86-93 | every stored file entry has a city of 1 to 99 bytes with no comma and no NUL |
| PriceFile.Loaded | Server/build/prkdb/update_prices.c:139-152 | the records expected from a table have one entry per row |
| PriceFile.RowSplit | Server/build/prkdb/update_prices.c:139 | a location of 1 to 99 bytes before the bar separator is read as that location, and the price is parsed from what follows |
| PriceFile.PricedRowOf | Server/build/prkdb/update_prices.c:139 | a written price followed by a newline reads back as that price, and the newline is consumed |
| PriceFile.ScanRowText | Server/build/prkdb/update_prices.c:139-150 | a printed row reads back as its location and price, leaving exactly the text after it |
| PriceFile.DumpRoundTrip | Server/build/prkdb/update_prices.c:119-158 | reading back the tool's printout of a table with readable locations yields every row in order, unchanged |
| PriceFile.DumpStart | Server/build/prkdb/update_prices.c:139 | a printout starts with the first location's first byte, which is not whitespace |
| PriceFile.LongCityStops | Server/build/prkdb/update_prices.c:139 | a location of a hundred bytes or more stops the loader, so no later row is loaded |
| PriceTable.Apply | Server/build/prkdb/update_prices.c:198-273 | a delete removes only that city; an insert adds it with its price; an update changes the price of a city already present and nothing else; every other city is untouched |
| PriceTable.Issue | Server/build/prkdb/update_prices.c:205-209 | every command is logged; the table changes only when the command succeeds |
| PriceTable.Database.constructor | Server/build/prkdb/update_prices.c:289 | the database starts with the given table and no commands |
| PriceTable.Database.Select | Server/build/prkdb/update_prices.c:181-194 | the lookup fails when the pipe cannot be opened; otherwise it finds the stored price, or reports the city as missing |
| PriceTable.Database.System | Server/build/prkdb/update_prices.c:205-209 | a command is logged and applied when it succeeds; the result is 0 exactly when it succeeds |
| PriceTable.Rounded | Server/build/prkdb/update_prices.c:200-202 | the price `%.2f` writes is whole hundredths, within half a hundredth of the price, and equal to it exactly when the price is whole hundredths |
| Numbers.NearestEven | Server/build/prkdb/update_prices.c:200-202 | the hundredths `%.2f` prints are within half a unit of the exact value, and equal to it exactly when it is whole |
| PriceTable.RoundedExamples | Server/build/prkdb/update_prices.c:200-202 | 5.125 is written as 5.12 and is not whole hundredths; 0.375 as 0.38; 5.1 as itself |
| PriceTable.Decide | Server/build/prkdb/update_prices.c:185-224 | no command exactly when the lookup failed or the lookup found exactly the file's price; for a different price an update, and for a missing city an insert, each carrying the price rounded by `%.2f` |
| PriceTable.UpdateNext | Server/build/prkdb/update_prices.c:177-225 | one more entry applies its step after the entries before it |
| PriceTable.UpdateEntry | Server/build/prkdb/update_prices.c:179-224 | one loop turn looks the city up and issues the command the lookup decides |
| PriceTable.UpdatePrices | Server/build/prkdb/update_prices.c:175-226 | the database ends as the entries' steps applied in order |
| PriceTable.Contains | Server/build/prkdb/update_prices.c:250-259 | the search finds a match exactly when some file entry has that city |
| PriceTable.DeleteNext | Server/build/prkdb/update_prices.c:247-274 | one more snapshot row applies its step after the rows before it |
| PriceTable.DeleteMissingCities | Server/build/prkdb/update_prices.c:245-275 | the database ends as a delete issued, in snapshot order, for each snapshot city the file does not name |
| PriceTable.UpdateFromFile | Server/build/prkdb/update_prices.c:287-321 | either load failing returns 1 before any command; otherwise returns 0 after the updates and then the deletes against the snapshot loaded first |
| PriceTable.TestNext | test_db/update_prices.c:17-41 | one more buffer applies its step after the buffers before it |
| PriceTable.TestLine | test_db/update_prices.c:17-41 | one loop turn issues one update for a line that parses and nothing otherwise |
| PriceTable.TestUpdatePrices | test_db/update_prices.c:8-44 | nothing happens when the file cannot be opened; otherwise the buffers' steps are applied in file order |
| PriceTable.CitiesSnoc | Server/build/prkdb/update_prices.c:252-259 | the cities of the entries are those before the last entry plus the last entry's city |
| PriceTable.FileMapKeys | Server/build/prkdb/update_prices.c:241-243 | the table the file describes holds exactly the file's cities |
| PriceTable.UpdateAllAppend | Server/build/prkdb/update_prices.c:177-225 | updating over two runs of entries equals updating over the first and then over the second |
| PriceTable.SelectFailureSkips | Server/build/prkdb/update_prices.c:185-190 | an entry whose lookup pipe fails is skipped, and the other entries act as if it were absent |
| PriceTable.StepOk | Server/build/prkdb/update_prices.c:193-224 | with the lookup and the command succeeding, an entry changes only its own city, which ends at the file's price or that price rounded to hundredths, and at the file's price when it is whole hundredths |
| PriceTable.RerunStep | Server/build/prkdb/update_prices.c:196-205 | after an entry's command ran, the same entry again is silent when its price is whole hundredths; otherwise the lookup finds the rounded price different from the file's and the same `UPDATE` is issued again |
| PriceTable.CarriesStep | Server/build/prkdb/update_prices.c:196-224 | one more entry keeps every file city in the table at its price or its rounded price |
| PriceTable.OverrideUpdate | Server/build/prkdb/update_prices.c:198-224 | setting a city after overlaying a table equals overlaying with the city already set |
| PriceTable.UpdateAllOk | Server/build/prkdb/update_prices.c:175-226 | with every lookup and command succeeding, the table gains exactly the file's cities, each at the price of its last line or that price rounded to hundredths; with every price in whole hundredths it is the old table overridden by the file's prices |
| PriceTable.UpdateLeavesOthers | Server/build/prkdb/update_prices.c:175-226 | whatever succeeds or fails, a city the file does not name keeps its presence and its price |
| PriceTable.QuietWhenAgreeing | Server/build/prkdb/update_prices.c:196-199 | a table that already holds every file line's exact price receives no command at all |
| PriceTable.DeleteEffect | Server/build/prkdb/update_prices.c:245-275 | whatever succeeds or fails, exactly the deletes for the snapshot cities missing from the file are issued, and the file's cities keep their presence and price |
| PriceTable.DeleteAllOk | Server/build/prkdb/update_prices.c:245-275 | with every delete succeeding, exactly the snapshot cities missing from the file leave the table |
| PriceTable.Reconcile | Server/build/prkdb/update_prices.c:309-313 | when the snapshot lists the table's cities and every command succeeds, the table ends holding exactly the file's cities, each at the price of its last line or that price rounded to hundredths, and exactly the file's prices when they are all whole hundredths |
| PriceTable.UpdatesSnoc | test_db/update_prices.c:26-33 | the updates for entries followed by at most one more are the updates for each part |
| PriceTable.TestEffect | test_db/update_prices.c:17-41 | whatever succeeds or fails, one update is issued per parsed line, in order, and the set of cities never changes |
| PriceTable.TestLast | test_db/update_prices.c:17-41 | the last buffer extends the log of the buffers before it by its update, if any |
| PriceTable.TestStepLog | test_db/update_prices.c:21-33 | one buffer logs one update when its line parses and nothing otherwise |
| PriceTable.TestStepKeys | test_db/update_prices.c:26-33 | an update never adds or removes a city |
| PriceTable.Overlay | test_db/update_prices.c:26-33 | taking prices from the file only for cities already present keeps the table's cities |
| PriceTable.OverlayUpdate | test_db/update_prices.c:26-33 | a successful update of a city overlays that city's new price |
| PriceTable.FileMapSnoc | Server/build/prkdb/update_prices.c:78-94 | a buffer that parses sets its city in the file's table and one that does not leaves the table as it was |
| PriceTable.TestRunOk | test_db/update_prices.c:8-44 | with every command succeeding, each city already present takes the price of its last file line rounded by `%.2f`, no city is added and none is removed |
| PriceTable.RoundedPrices | test_db/update_prices.c:27-29 | rounding a table's prices keeps its cities and leaves every price whole hundredths |
| PriceTable.RoundedFileMap | Server/build/prkdb/update_prices.c:200-216 | prices in whole hundredths come through `%.2f` unchanged |

## Left out

- Floating point. Every `double` is an exact decimal or real. `%lf` reads only an optional sign, digits and an optional fraction, with no exponent, `inf`, `nan` or hex form. Both the writer's and the price tool's `%.2f` round the exact decimal to the nearest hundredth, a tie to the even one (`Numbers.NearestEven`). A double that cannot hold the decimal exactly may round the other way: 5.135 is stored just below, so C prints 5.13 where the model gives 5.14.
- StoreWriter.Fixed2: the writer's `%.2f` rounds the exact decimal the record text spells. C rounds the `double` that `%lf` stored, so a decimal a `double` cannot hold may round the other way: `x 1.015` is stored just below 1.015 and C prints `1.01`, where the model rounds the tie 101.5 to the even 102 and gives `1.02`; `x 0.005` is stored just above 0.005 and C prints `0.01`, where the model gives `0.00`. Ties that a `double` holds exactly, such as 1.125, agree. A negative value that rounds to zero keeps its sign (`x -0.001` prints `-0.00`, `StoreWriter.Fixed2TextExamples`), but a coordinate written as a negative zero (`-0`, `-0.00`) is scanned as plain zero, so the model prints `0.00` where C prints `-0.00`.
- Unique locations. The `Prices` table is a map, so each location has at most one row. The schema (ParkSys/build/src/create_tables.c:9-12) has no unique constraint on `location`, and a table holding two rows for one city, which the loader and the `SELECT` would both see, is not modelled.
- SQLite. It is an outside tool reached through `system()` and `popen()`. Each command is its intended effect on an abstract table. Whether a pipe opens or a command succeeds is an input. The tool's real output format is modelled by `PriceFile.Dump` for the rows it prints.
- Command strings. The insert command's text and its cut to 255 characters by `snprintf` are modelled (`StoreWriter.InsertCommand`). The SQL quoting, injection through an identifier, and the text of the price tool's commands are not: those commands are their intended effect on the table.
- Concurrency. Sockets, threads, the blocking of `sem_wait` and `accept`, `sleep`/`usleep` polling and signal handlers are left out. Each process loop body is one atomic transition, and a run is any interleaving of them. The mutexes in the server are process-local and are not modelled as mutual exclusion between processes. A handler takes its lock for each line, not for each chunk (Server/build/core/src/server.c:138-144), so another handler's line or a drain pass can come between two lines of one chunk. The model makes a whole chunk one event (`Pipeline.Receive`), so `Pipeline.ReceiveLastLine` and `Pipeline.DrainAfterReceive` hold at that granularity, and the per-line interleaving of handlers is not modelled.
- Shared memory and FIFOs. `shmget`/`shmat`/`shmdt`, `mkfifo`, `open`, `inotify`, `flock` and segment removal are plumbing. The segment is an array and the log and FIFOs are sequences. The failures of these calls are inputs where the code branches on them.
- Pipeline.WriteReadsBack: a line of exactly 1024 bytes leaves the slot without a NUL (`Pipeline.FullLineUnterminated`). The model then reads the slot's text as all 1024 bytes, stopping at the end of the segment. In C, `strlen` and `write` in the drain worker (Server/giis.c:118,125) and `strcmp` in the notifier read past the segment. The notifier's `strcpy` into its 1024-byte `last_data` writes one byte past it. `Pipeline.Ingest.SlotLength`, `Pipeline.Ingest.CheckPass` and the run lemmas inherit this reading, and this undefined behaviour is not modelled.
- StoreWriter.ConcatenatedRecords: `%lf` here has no exponent. When the next record in the same read starts with `e` or `E`, C reads an exponent (`E4:...` makes z 901200 from 90.12) or fails the z conversion (`EF:...`), where the model's number would stop before the letter. `EndsNumber` excludes such text, so `ParseEncode` and `ConcatenatedRecords` do not cover it. It also excludes a following `x` or `X`, which glibc reads after a bare `0` as the start of a hexadecimal number.
- Pipeline.Boot: the slot is taken to be zero-filled, as a freshly created segment is. No server program removes the segment, so a segment left by an earlier run may start non-empty; `Pipeline.EmptyAtStartupSilent` and the boot state hold only for a fresh segment.
- Pipeline.Drain: a FIFO write is whole, failed or fatal. Records are at most 1024 bytes, within the atomic pipe-write size, so a partial write is not modelled.
- Memory allocation. `malloc` and `realloc` are assumed to succeed.
- `config.h` is not part of this model. The configuration reader's line size (`MAX_PATH_LENGTH`) is therefore a parameter.
- `Config.ReadConfig` takes the three output buffers as distinct arrays. Aliased outputs are not modelled.
- Bytes and integers. Bytes are `char`s, so the signedness of `char` does not arise. Packet fields are unsigned 16-bit values stored little-endian; other byte orders are not modelled.
- Drivers. The UART, GPIO and I2C drivers and the device's `write` of `ACK` are outside the model; reads and acknowledgements are inputs and outputs of the framing step.
- Relays and setup tools. FIFO and socket relays with no logic beyond read and write, the GPS simulator, table-creation and launcher programs are not modelled.
- Terminal and log output. `printf`/`fprintf` diagnostics are left out. A failed database command is only reported by the code, which the model reflects by ignoring the result.
