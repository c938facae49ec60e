# Market data store: a verified model

A Dafny model of the durable record store of this repository, and of the small state
machines that feed it.

- **Store.** Producers put trades or order-book snapshots into a bounded queue; a worker
  thread stamps each record with a CRC-32 and appends it to a binary file named after the
  UTC hour of the record; a reopened file is first cut back to its last good record; a
  reader and a replayer deliver a directory back, for a time window if asked.
- **Feed.** A gate per symbol finds gaps in trade ids, the dispatcher keeps a gate and an
  order-book id for every symbol, a clock calibrator estimates the exchange's clock, a
  histogram reports latency percentiles, and a ring buffer keeps the latest items.

A record is a sequence of bytes of which only `recv_ts_us` and `crc32` are interpreted; the
layouts of both record types and of the 24-byte file header are written out byte by byte.
The data directory is a map from file names to bytes. `gmtime_r` is modelled as the inverse
of the Seconds Since the Epoch formula (POSIX.1-2017 Base Definitions, section 4.16).

Main results:

1. *From `write()` to the replay callback* (`EndToEnd.ReplayAfterClose`,
   `ReplayClosedWriter`, `ReplayBesideAnother`): for every interleaving of producers, worker
   and `close()` over any number of sessions, if no file operation failed, a full replay
   delivers exactly the accepted records, stably sorted by UTC hour, changed only in
   `crc32`; also while the writer of the other stream works in the same directory. It joins
   the queue protocol, the writer object, the file machine, the reader and the replayer.
2. *Crash and failure safety* (`FileStore.RunIsSound`, `LossExactlyWhen`,
   `PersistedRecordsSurvive`, `ReopenAfterCrash`, `StoreHistory.ReplayAfterCrashes`,
   `WriterProtocol.FailuresLoseNothingCounted`): over every history of writes, count
   updates, closes, crashes, failed file operations and reopenings the directory stays
   sound, nothing is in it that was not written, and complete records are never changed or
   moved. They are lost in exactly two cases, listed under Findings; otherwise what a count
   update covered is replayed.
3. *Exact pruning* (`StoreHistory.WindowedReplayIsFilteredReplay`,
   `RecordReplayer.ReplayWindow`): opening only the files whose UTC hour lies between the
   hours of a window's bounds gives the full replay filtered by time. What the names say is
   fixed by `FileStore.RecordIsFiledByItsTime` and `FileRoll.NameInWindowMeansHours`.
4. *CRC* (`CrcTheory.CrcIsPolynomialRemainder`, `BurstIsDetected`,
   `ReplayTheory.DamageStopsReplay`): the bit loop computes the GF(2) remainder, and a burst
   of at most 32 bits in one stored payload stops a replay right before that record.
5. *Queue protocol* (`WriterProtocol`): conservation, order, no lost wakeup, and a bound on
   the steps of a `close()` whatever producers do meanwhile. The writer object, with every
   file operation of a write allowed to fail, is a run of that protocol, and without faults
   it never fails on a directory with exact counts (`WriterRefinement`).
6. *Histogram* (`LatencyHistogram.ReportIsAccurate`, `HistogramRace`): every percentile is
   within a factor of two of the exact one, and under any interleaving of atomic operations
   every sample is counted exactly once and no maximum is lost.
7. *Feed* (`MessageDispatch.TradesDelivered`, `BooksDelivered`, `SymbolsAreIndependent`,
   `CountersAddUp`; `TradeSeqGate.AnswersMean`, `RetransmissionRecovers`): over any message
   stream each symbol is delivered exactly what a gate of its own accepts, without holes,
   and order books that never go back; the metrics are the sums over symbols.

## Findings

- A window that ends after year 9999 is compared as text with four-digit years. For any
  window with a 64-bit end, pruning is safe exactly when the end lies in a year up to 9999
  or in 99992 to 99999, or when the window starts after year 9999 and so matches nothing
  (`FileRoll.PruningIsSafeExactlyWhen`). With an end in years 10000 to 19699 every file is
  pruned although the window contains its records (`FileRoll.FarWindowPrunesMatches`); the
  first such end is the microsecond after year 9999 (`FileRoll.FirstFarEnd`).
- A new file's header is buffered like its records, so a crash soon after the first write
  of an hour can leave fewer than 24 bytes (`FileStore.FirstWriteCanBeTorn`). From then on,
  until an existence test fails on it, the file never changes, every write to that hour is
  refused, and no full replay opens the directory (`FileStore.TornHeaderStays`,
  `StoreHistory.TornHeaderBlocksReplay`). Refusals
  have no other cause (`FileStore.ReopenAfterCrash`, `StoreHistory.ReadableExactlyWhen`).
- Two failures during reopening are taken for something else, reported as success, and lose
  complete, counted records. A slot that cannot be read reads as the end of the good
  records: repair cuts off that slot and all behind it. A failed existence test reads as
  "not there": the file is truncated and created anew. Complete records are lost exactly
  when a slot before the end of them cannot be read, or when the test fails on a file that
  has some (`FileStore.LossExactlyWhen`, `RecordWriter.ReopenLosesExactlyWhen`); both
  happen (`StoreHistory.CompleteRecordsCanBeLost`).
- A header claims more records than its file has exactly when such a cut is made below the
  claimed count and the new count is then not written (`FileStore.StepIsHonest`).
- `crc32 == 0` means "not stamped", so damage to the CRC field alone passes exactly when it
  leaves zero (`RecordIntegrity.CrcFieldDamage`).
- The order-book check uses 0 for "none seen". Without the parser's rejection of
  non-positive ids a rollback is delivered exactly when a 0 is followed by a negative id
  before any positive one has come (`MessageDispatch.RollbackSlipsExactlyWhen`,
  `SentinelNeedsPositiveIds`).

## Layout

| file | content |
|---|---|
| Crc32, CrcTheory | the CRC register machine, polynomial division, burst detection |
| RecordIntegrity | little-endian fields, record and file layout, stamping, repair |
| Calendar, FileRoll | UTC calendar, hourly names, windows, directory listing |
| FileStore | the writer's file operations as values, with crashes; soundness of all histories |
| RecordReader, ReplayTheory | the reader object; what a scan of a directory delivers |
| StoreHistory | crash-free histories, round trip, pruning over histories |
| SharedDirectory | two streams in one directory |
| RecordReplayer | the replayer object |
| WriterProtocol | the interleavings of the writer, failures included |
| RecordWriter, WriterRefinement | the writer object method by method; why it is a run of the protocol |
| EndToEnd | the whole way from accepted calls to callbacks |
| TradeSeqGate, MessageDispatch | per-symbol gates; dispatch of parsed messages |
| LatencyHistogram, HistogramRace | sequential and concurrent histogram |
| ClockOffset, RingBuffer | clock calibration; the fixed-capacity buffer |

Objects the source updates in place are classes here, and their methods are tied by
`ensures` to value-level functions about which the lemmas speak.

## Model

| member | source | states |
|---|---|---|
| Crc32.Crc32Ieee | src/storage/record_integrity.h:16-27 | The nested loops compute the register function Crc for every byte string. |
| Crc32.UpdateConcat | src/storage/record_integrity.h:18-25 | The register is the whole state: feeding two chunks in turn equals feeding their concatenation. |
| Crc32.CheckValue | src/storage/record_integrity.h:14-27 | The CRC of the ASCII digits 1 to 9 is 0xCBF43926, the catalogued check value of this CRC. |
| CrcTheory.CrcIsPolynomialRemainder | src/storage/record_integrity.h:16-27 | A value is the CRC of a message iff its complemented coefficients are the remainder of the message polynomial (first 32 coefficients complemented, times x^32) modulo the generator over GF(2), section 8 of RFC 1952. |
| CrcTheory.RemainderIsUnique | src/storage/record_integrity.h:16-27 | Quotient and remainder of that division are unique, so the previous row determines the CRC. |
| CrcTheory.UpdateIsFeed | src/storage/record_integrity.h:19-25 | The byte-wise register is the textbook one-bit-at-a-time shift register on the message bits, least significant bit first. |
| CrcTheory.BurstIsDetected | src/storage/record_integrity.h:16-27 | Two different messages of equal length that differ only inside a window of at most 32 bits have different CRCs. |
| CrcTheory.FourBytesAreDetected | src/storage/record_integrity.h:16-27 | In particular any damage to up to four adjacent bytes. |
| CrcTheory.GeneratorExponents | src/storage/record_integrity.h:14-23 | The generator that divides is x^32 + x^26 + x^23 + x^22 + x^16 + x^12 + x^11 + x^10 + x^8 + x^7 + x^5 + x^4 + x^2 + x + 1. |
| ByteCodec.LittleEndian | src/storage/trade_file_format.h:8-11 | Byte i of a stored integer is its digit of weight 256^i. |
| RecordFormat.ReceiveTimeField | src/storage/binary_record_writer.h:202-205 | A record whose receive-time bytes are the two's-complement little-endian form of a 64-bit integer has that integer as its receive time. |
| RecordFormat.LayoutsFollowTheStructs | include/mds/types.h:17-82 | Record sizes and the places of recv_ts_us and crc32 follow from the field lists of the two structs. |
| RecordIntegrity.FieldIsLittleEndian | src/storage/record_integrity.h:14-15 | The four stored bytes, read bit by bit as the CRC reads a message, are the coefficients of the value. |
| RecordIntegrity.StampIsRemainder | src/storage/record_integrity.h:30-42 | Down to the bits: the complemented bits of the stored field are the remainder of the record's bits, the field read as zero, modulo the generator; the rest of the record is as before. |
| RecordIntegrity.ComputeRecordCrc | src/storage/record_integrity.h:30-37 | The CRC of the record with its own crc32 field read as zero. |
| RecordIntegrity.StampRecordCrc | src/storage/record_integrity.h:39-42 | In place: exactly the four bytes of the crc32 field change, to the little-endian record CRC. |
| RecordIntegrity.StampIsAccepted | src/storage/record_integrity.h:39-51 | A stamped record passes the check, keeps its payload and receive time, and stamping again changes nothing. |
| RecordIntegrity.PayloadBurstIsRejected | src/storage/record_integrity.h:44-51 | A checked record with nonzero crc32 whose payload is damaged in one window of at most 32 bits fails the check. |
| RecordIntegrity.CrcFieldDamage | src/storage/record_integrity.h:44-51 | Damage to the crc32 field alone is accepted iff it leaves zero. |
| RecordFormat.HeaderIsOk | src/storage/trade_file_format.h:15-30 | A freshly written header passes the reader's check, claims its count and leaves the body as written. |
| RecordFormat.HeaderOkExactlyWhen | src/storage/record_integrity.h:76-83 | A file passes the check iff its first 24 bytes are the header written for some count. |
| RecordFormat.FreshHeaders | src/storage/trade_file_format.h:15-46 | The 24 bytes a new file of either kind begins with. |
| RecordFormat.WithCountKeeps | src/storage/record_integrity.h:125-128 | Rewriting the count changes the claimed count and nothing else. |
| RecordFormat.SlotsOfConcat | src/storage/record_integrity.h:92-105 | Appending bytes never changes slots already complete; a torn tail plus the new bytes form the rest. |
| RecordIntegrity.GoodPrefixIsLongest | src/storage/record_integrity.h:92-105 | Repair counts the longest prefix of complete slots that pass the check. |
| RecordIntegrity.ScanGoodSlots | src/storage/record_integrity.h:92-105 | The loop finds that count and where those slots end, stopping also at a slot that cannot be read. |
| RecordIntegrity.RepairedFile | src/storage/record_integrity.h:61-139 | After repair the header is the same but for the count, the count is the number of slots, the slots are exactly the good prefix, and no torn tail is left. |
| RecordIntegrity.RepairTwice | src/storage/record_integrity.h:107-138 | 24 + valid * size is the new length, not above the old one, and a second repair changes nothing. |
| RecordIntegrity.RepairCounts | src/storage/record_integrity.h:92-138 | 24 + valid * size is the new length also when slots could not be read. |
| RecordIntegrity.LegibleSlots | src/storage/record_integrity.h:94-99 | If only the slots before a number can be read, the file passes for its first slots up to that number. |
| RecordIntegrity.RepairRecordFile | src/storage/record_integrity.h:61-139 | Succeeds exactly when the file is there, its header is right and no operation fails that the source tests; then the file is the repaired form of what could be read of it, and kept plus discarded bytes are the old length. Otherwise it is unchanged, or cut back, or also counted, as the failing operation says. |
| ReplayTheory.RepairedFileReads | src/storage/record_integrity.h:92-139 | A repaired file reads back as exactly the slots repair counted, without error, with a matching header count. |
| Calendar.GmtimeIsInverse | src/storage/file_roll.h:42-46 | Broken-down time is a valid Gregorian date and its Seconds Since the Epoch is the input. |
| Calendar.GmtimeIsUnique | src/storage/file_roll.h:42-46 | Every valid date from 1970 on is the broken-down time of its own second. |
| Calendar.HoursOrderDates | src/storage/file_roll.h:48-53 | Year, month, day and hour order instants exactly as whole hours since the epoch. |
| Calendar.MonthStarts | src/storage/file_roll.h:42-52 | Every month begins where the closed form (367 m - 362) / 12, less one or two days after February, says. |
| Calendar.YearStarts | src/storage/file_roll.h:42-50 | Years are 365 or 366 days from 1970-01-01 on, and 400 of them are 146097 days. |
| Calendar.KnownInstant | src/storage/file_roll.h:42-53 | Second 1700000000 is 2023-11-14 22:13:20. |
| Calendar.KnownDays | src/storage/file_roll.h:42-52 | Two leap days, and the day that follows 28 February 2100. |
| FileRoll.NameReads | src/storage/file_roll.h:38-55 | For every time and the valid date and hour that it falls in: the digits of its name read back as that year, month, day and hour; times before the epoch count as the epoch, and the year has four digits iff the time is before year 10000. |
| FileRoll.NamesOrderAsHours | src/storage/file_roll.h:38-55 | Up to year 9999 names of one stream compare as text exactly as their UTC hours, and are equal iff the hour is. |
| FileRoll.IsHourlyFileName | src/storage/file_roll.h:57-82 | Accepts exactly prefix_YYYYMMDD_HH.bin with digits in the digit places. |
| FileRoll.HourlyNameShape | src/storage/file_roll.h:57-82 | That is: a name is accepted iff it is the prefix, an underscore, eight digits, an underscore, two digits and .bin. |
| FileRoll.GeneratedNameIsRecognised | src/storage/file_roll.h:38-82 | A generated name is accepted for its own prefix and for no other. |
| FileRoll.WindowMeaning | src/storage/file_roll.h:19-36 | A window is valid iff it contains some time and empty iff it contains every time; what it contains is an interval that ends with its bounds. |
| FileRoll.NameInWindowMeansHours | src/storage/file_roll.h:84-99 | For bounds up to year 9999 a file is listed iff its UTC hour lies between the hours of the bounds. |
| FileRoll.PruningKeepsMatches | src/storage/file_roll.h:84-99 | The file of a timestamp inside the window is never pruned, for every window that ends in a year up to 9999 or in 99992 to 99999. |
| FileRoll.PruningIsSafeExactlyWhen | src/storage/file_roll.h:84-99 | For every window, one- or two-sided, with a 64-bit end: pruning keeps all matching files iff the end lies in those years or the window starts after year 9999. |
| FileRoll.FarWindowPrunesMatches | src/storage/file_roll.h:94-97 | With an end in years 10000 to 19699 every file is pruned though the window contains its timestamps. |
| FileRoll.FirstFarEnd | src/storage/file_roll.h:94-97 | The smallest such end, one microsecond after year 9999, prunes every file. |
| TextOrder.LessMeans | src/storage/file_roll.h:90-98 | Names are compared by their first difference, a proper prefix first. |
| FileRoll.AscendingIsUnique | src/storage/file_roll.h:119 | Order and contents determine a listing. |
| FileRoll.SortNames | src/storage/file_roll.h:119 | Distinct names come out ascending, the same names. |
| FileRoll.ListRecordFiles | src/storage/file_roll.h:101-121 | Exactly the directory's names that pass the pruning test, each once, ascending. |
| FileStore.PersistStep | src/storage/binary_record_writer.h:233-275 | Writing the count, or closing, keeps the directory sound and every file's contents, and makes all of them durable. |
| FileStore.CrashStep | src/storage/binary_record_writer.h:223-229 | A crash that keeps any prefix of the buffered bytes leaves the directory sound, loses nothing complete on disk and invents nothing. |
| FileStore.RepairSteps | src/storage/record_integrity.h:92-128 | Repair, finished or stopped before the count update, keeps the directory sound and exactly the records before the first slot that cannot be read. |
| FileStore.EraseStep | src/storage/binary_record_writer.h:279-304 | A failed existence test leaves the directory sound and that file's records gone. |
| FileStore.OpenStep | src/storage/binary_record_writer.h:277-322 | Opening an hour's file succeeds iff it is new or has a whole header, keeps every file's contents, and resumes on a slot boundary. |
| FileStore.WriteStep | src/storage/binary_record_writer.h:211-231 | A write appends the stamped record to the file of its hour and leaves every other file's contents alone, or is refused, exactly when that file was cut inside its header. |
| FileStore.RollsAtTheHour | src/storage/binary_record_writer.h:211-231 | Within an hour the open file stays open and the bytes are buffered; a record of another hour first leaves the old file closed, with its whole contents on disk and their number in its header. |
| FileStore.RecordIsFiledByItsTime | src/storage/binary_record_writer.h:202-231 | A record whose bytes hold the receive time recv is appended to the file whose name spells the UTC year, month, day and hour of recv, or of the clock when recv is not positive, and to no other. |
| FileStore.KnownFiles | src/storage/binary_record_writer.h:211-213 | A trade and an order book received at second 1700000000 go to trades_20231114_22.bin and orderbooks_20231114_22.bin. |
| FileStore.RunIsSound | src/storage/binary_record_writer.h:211-322 | Over any history with crashes and failures every file is sound (checked records of its own hour only), and unless records are lost while a file is reopened, complete records on disk only ever gain successors. |
| FileStore.StepIsSound | src/storage/binary_record_writer.h:211-322 | A single event keeps every complete record iff it is not a repair that cannot read one of them or a failed existence test on a file that has some. |
| FileStore.LossExactlyWhen | src/storage/binary_record_writer.h:279-304 | Over any history each step keeps all complete records iff no such loss occurs. |
| FileStore.StepIsHonest | src/storage/record_integrity.h:107-128 | No header comes to claim more records than its file has, except exactly by a cut below the claimed count that is then not counted. |
| FileStore.RunIsHonest | src/storage/binary_record_writer.h:254-302 | So over any history without that the count in every header is at most the number of complete, checked records. |
| FileStore.FreshDirectoryIsSound | src/storage/binary_record_writer.h:303-318 | A directory without files of the stream is a sound start. |
| FileStore.PersistedRecordsSurvive | src/storage/binary_record_writer.h:254-275 | Everything accepted before a count update heads the files whatever crashes and reopenings follow, as long as none of them loses records. |
| FileStore.ReopenAfterCrash | src/storage/binary_record_writer.h:277-302 | After any history reopening is refused iff the file has less than a header; otherwise it keeps all complete records in order and appends on a slot boundary. |
| FileStore.FirstWriteCanBeTorn | src/storage/binary_record_writer.h:303-316 | For every record and directory without the hour's file: the first write and a crash that keeps less than 24 bytes leave the file cut inside its header. |
| FileStore.TornHeaderStays | src/storage/binary_record_writer.h:282-286 | From then on, until a failed existence test, the file's bytes stay and every write to that hour is refused, whatever happens. |
| RecordReader.BinaryRecordReader.Close | src/storage/binary_record_reader.h:121-131 | Everything is reset except the error flag. |
| RecordReader.BinaryRecordReader.OpenIndex | src/storage/binary_record_reader.h:166-185 | Succeeds iff the index exists and the header is sound, and then stands behind that file's header. |
| RecordReader.BinaryRecordReader.ProbeHeaders | src/storage/binary_record_reader.h:61-75 | Succeeds iff every listed header is sound, with the 64-bit sum of their counts. |
| RecordReader.BinaryRecordReader.Open | src/storage/binary_record_reader.h:40-78 | Succeeds iff the window is ordered, there is a file or a window, and all headers are sound; then the whole scan is ahead. |
| RecordReader.BinaryRecordReader.ReadNext | src/storage/binary_record_reader.h:84-119 | Delivers the next record of the scan, or ends with the error flag set iff the scan ends in damage; terminates by files and bytes left. |
| ReplayTheory.ScanDeliversPrefix | src/storage/binary_record_reader.h:84-119 | A scan delivers, filtered by the window, the concatenation of all complete slots in name order up to the first that fails its check, fails iff there is one, and passes over torn tails of any file. |
| ReplayTheory.PruningIsExact | src/storage/binary_record_reader.h:40-97 | On a sound directory the windowed scan equals the full scan filtered by time. |
| ReplayTheory.InWindowCounts | src/storage/binary_record_reader.h:95-97 | Filtering keeps each record of the window as often as before and no other. |
| ReplayTheory.DamageStopsReplay | src/storage/binary_record_reader.h:88-94 | A burst of at most 32 bits in one stored payload makes a full scan deliver exactly the records before it and report an error. |
| StoreHistory.CleanRun | src/storage/binary_record_writer.h:211-322 | Without crashes no write is refused, every file receives its records in order after what it held, and closed headers count exactly. |
| StoreHistory.StableOrderIsUnique | src/storage/file_roll.h:119 | Stable order by hour leaves one possible result. |
| StoreHistory.WindowedReplayIsFilteredReplay | src/storage/file_roll.h:84-99 | On every directory the writer can leave, crashes included, whose headers are whole: windowed replay equals full replay filtered by the window. |
| StoreHistory.ReadableExactlyWhen | src/storage/binary_record_reader.h:139-164 | After any history all headers pass iff no file is shorter than a header. |
| StoreHistory.TornHeaderBlocksReplay | src/storage/binary_record_reader.h:61-75 | Until then no full replay opens a directory with such a file. |
| StoreHistory.ReplayAfterCrashes | src/storage/binary_record_reader.h:84-119 | After any history with crashes and failures, a count update in it and whole headers at the end, a full scan ends without error, hours in order. Each hour's records are a subsequence of those written for it; and unless records were lost since, they begin with all its file had received when the count was updated: without earlier crashes, everything written for it. |
| StoreHistory.NothingIsInvented | src/storage/binary_record_writer.h:211-322 | Over any history from a fresh directory a file holds a subsequence of the records written to it: nothing invented, duplicated or reordered. |
| StoreHistory.Positions | src/storage/binary_record_writer.h:211-322 | A subsequence is given by ascending positions. |
| StoreHistory.CompleteRecordsCanBeLost | src/storage/binary_record_writer.h:279-304 | For every record: written, closed and complete in its file, it is gone after a repair that cannot read its slot, and after a failed existence test. |
| StoreHistory.RoundTrip | src/storage/binary_record_writer.h:211-322 | Over any crash-free history a full scan opens iff something was written, ends without error, agrees with the header counts, and delivers the written records stably ordered by UTC hour. |
| SharedDirectory.StreamsAreApart | src/storage/trade_file_format.h:15-33 | The program's two streams have different prefixes. |
| SharedDirectory.NamesAreApart | src/storage/file_roll.h:57-82 | A file name belongs to one stream only. |
| SharedDirectory.ApplyIsLocal | src/storage/binary_record_writer.h:211-322 | What an event does to a stream, and whether it succeeds or loses records, depends on the stream's own files only. |
| SharedDirectory.ApplyKeepsOthers | src/storage/binary_record_writer.h:211-322 | An event of a stream leaves every other file of the directory alone. |
| SharedDirectory.WritersDoNotInterfere | src/storage/binary_record_writer.h:211-322 | Any interleaving of two streams' events in one directory gives each stream the files, and each writer the open file, it would have had alone. |
| SharedDirectory.ScanIsLocal | src/storage/binary_record_reader.h:40-119 | Opening and scanning a stream depend on its own files only. |
| RecordReplayer.RecordReplayer.Deliver | src/replay/record_replayer.h:45-60 | The callback gets the scan's records in order, one call each, up to and including the call that throws; the count excludes that one. |
| RecordReplayer.RecordReplayer.ReplayAll | src/replay/record_replayer.h:30-83 | Every flag and count of the result in terms of the scan, the headers and the callback, including a missing callback, a refused open, damage, a throw and a count mismatch. |
| RecordReplayer.CallbackStops | src/replay/record_replayer.h:46-60 | The callback is called up to and including the first record it throws on, and for all of them when there is none. |
| RecordReplayer.OpensExactlyWhen | src/storage/binary_record_reader.h:40-78 | A directory of whole headers opens iff the window contains some time and there is a file or a bound: a bounded window without matching files is no error. |
| RecordReplayer.ReplayWindow | src/replay/record_replayer.h:30-83 | After any history of the writer, crashes included, that leaves whole headers, the replay of a bounded window completes, matching files or not, and delivers exactly the records of the full replay that lie in it. |
| RecordReplayer.ReplayHistory | src/replay/record_replayer.h:30-83 | After a crash-free history a replay completes iff something was written, delivers it stably ordered by hour, and its counts agree. |
| WriterProtocol.ReachableInv | src/storage/binary_record_writer.h:82-200 | Every reachable state of producers, worker and close(), with any file operation of a write failing, noticed or not, keeps the queue, wakeup, flow, history and directory invariants. |
| WriterProtocol.QueueConservation | src/storage/binary_record_writer.h:82-200 | Calls that found the writer accepting = written + dropped + queued + in flight, also after failures; records reach the file in acceptance order; the queue respects its capacity; nothing is unaccounted for once the worker is done. |
| WriterProtocol.NoLostWakeup | src/storage/binary_record_writer.h:101-105 | A worker waiting while there is work, or while closing, always has a notification under way. |
| WriterProtocol.InternalStepsDescend | src/storage/binary_record_writer.h:152-200 | Each of the writer's own steps lowers a rank. |
| WriterProtocol.InternalRunsEnd | src/storage/binary_record_writer.h:152-200 | Left to itself the writer comes to rest: no run of its own steps from a reachable state is longer than that rank. |
| WriterProtocol.ClosingDescends | src/storage/binary_record_writer.h:82-123 | While close() is under way a call to write() changes nothing and every other step, spurious wakeups included, brings its end closer. |
| WriterProtocol.CloseEnds | src/storage/binary_record_writer.h:108-123 | In any run of any steps before a close() has ended, all but a bounded number are calls to write() without effect; so close() completes. |
| WriterProtocol.RestsOnlyWhenIdle | src/storage/binary_record_writer.h:108-123 | It rests only with an empty queue, no notification pending and no close() in progress. |
| WriterProtocol.ClosedWriterHistory | src/storage/binary_record_writer.h:108-123 | Once closed without failure the directory is that of a crash-free history that wrote exactly the accepted records in acceptance order. |
| WriterProtocol.FailuresLoseNothingCounted | src/storage/binary_record_writer.h:181-196 | Whatever fails and when, the directory is sound; and unless records are lost while a file is reopened, nothing complete in it is lost and what a successful count update covered heads its files ever after. |
| RecordWriter.BinaryRecordWriter.PersistHeaderCount | src/storage/binary_record_writer.h:254-275 | Flushes the body and rewrites the count. When that fails, part of the body or the body and the count reached the file and the stream is lost; after an earlier error nothing is done. |
| RecordWriter.BinaryRecordWriter.CloseCurrentFile | src/storage/binary_record_writer.h:233-252 | The file is counted and closed; exactly when and with what effect it fails, and that the error is remembered. |
| RecordWriter.BinaryRecordWriter.OpenFile | src/storage/binary_record_writer.h:277-322 | Creates the hour's file with a header, or repairs and resumes it; succeeds exactly when the directory allows it and nothing the source tests fails, and otherwise leaves what the failing operation left. A failed existence test creates an existing file anew, an unreadable slot cuts it short. Discarded bytes are counted. |
| RecordWriter.BinaryRecordWriter.ReopenFile | src/storage/binary_record_writer.h:282-302 | The branch for a file that is found: repair, resume, and each way of failing. |
| RecordWriter.BinaryRecordWriter.CreateFile | src/storage/binary_record_writer.h:303-318 | The branch for a file that is not found, or seems not to be: header, and each way of failing. |
| RecordWriter.ReopenLosesExactlyWhen | src/storage/binary_record_writer.h:277-302 | On a sound directory opening a file keeps every complete record iff the existence test works or the file has none, and no slot of one is unreadable. |
| RecordWriter.BinaryRecordWriter.AppendStamped | src/storage/binary_record_writer.h:223-230 | Appends the stamped copy, or loses the stream with any part of the buffer written. |
| RecordWriter.BinaryRecordWriter.WriteToFile | src/storage/binary_record_writer.h:211-231 | Rolls to the record's hour if needed and appends the stamped copy. What opening the file and a failure did is given as a history in which at most this record was written; undisturbed it loses nothing, and without faults it fails only where the directory refuses. |
| RecordWriter.BinaryRecordWriter.Open | src/storage/binary_record_writer.h:49-80 | Refused while running, with capacity 0 or when the data directory cannot be created, changing nothing, whatever file is open; otherwise a session with fresh counters. |
| RecordWriter.BinaryRecordWriter.Write | src/storage/binary_record_writer.h:82-106 | Accepts, drops or refuses, and asks for a notification iff the queue was empty. |
| RecordWriter.BinaryRecordWriter.TakeBatch | src/storage/binary_record_writer.h:164-167 | Takes the oldest min(1024, queued) records in order. |
| RecordWriter.BinaryRecordWriter.WriteBatch | src/storage/binary_record_writer.h:170-178 | Writes the batch, each record under its own clock reading, up to the first failure; the directory is that of exactly those writes and what the failure left. |
| RecordWriter.BinaryRecordWriter.WriteAndCount | src/storage/binary_record_writer.h:170-183 | Counts what was written; a whole batch is followed by the header count, and a failure has one of the possible causes. |
| RecordWriter.BinaryRecordWriter.DrainBatch | src/storage/binary_record_writer.h:152-200 | One turn of the loop on a nonempty queue: batch written and counted, or stopped at the failure with everything else dropped; written + dropped + queued is conserved. |
| RecordWriter.BinaryRecordWriter.StopAfterFailure | src/storage/binary_record_writer.h:185-196 | Everything not written is counted as dropped, the flags are cleared and the loop is left. |
| RecordWriter.BinaryRecordWriter.ClearFlags | src/storage/binary_record_writer.h:110-114 | close() first stops accepting and running, and touches nothing else. |
| RecordWriter.BinaryRecordWriter.LeaveWhenDone | src/storage/binary_record_writer.h:159-162 | With an empty queue the worker leaves its loop iff the flags are cleared. |
| RecordWriter.BinaryRecordWriter.JoinAndClose | src/storage/binary_record_writer.h:117-122 | The thread is joined and the last file closed; whether and how that fails. |
| WriterRefinement.DrainRefines | src/storage/binary_record_writer.h:152-200 | A drained batch, ended well or by any failure, is a run of the protocol's steps: check, writes, count, count update or failure, abort. |
| WriterRefinement.DrainGoesWell | src/storage/binary_record_writer.h:170-183 | Without faults, after a clean history from a directory with exact counts, no batch fails. |
| WriterRefinement.TracedWriter.Open | src/storage/binary_record_writer.h:49-80 | Opening a session is the protocol's Start step. |
| WriterRefinement.TracedWriter.Write | src/storage/binary_record_writer.h:82-106 | write() is the protocol's Offer step, followed by a notification iff the queue was empty. |
| WriterRefinement.TracedWriter.WorkerTurn | src/storage/binary_record_writer.h:156-199 | A turn of the worker is a run of protocol steps: it sleeps, leaves, drains a batch or stops at a failure; written + dropped + queued is conserved, files of other streams stay, and without faults it does not fail. |
| WriterRefinement.TracedWriter.Close | src/storage/binary_record_writer.h:108-123 | close() is a run of protocol steps that ends with the thread joined and the queue empty; every queued record is written or counted as dropped; without faults, from a directory with exact counts and a clean history, it ends without an error and keeps the history clean. |
| WriterRefinement.TracedWriter.Accounts | src/storage/binary_record_writer.h:82-123 | Between calls, after any failures: every call that found the writer accepting is written, dropped or queued; a sound directory stays sound, and unless reopening lost records nothing complete is lost. |
| EndToEnd.ReplayAfterClose | src/storage/binary_record_writer.h:82-123 | For any interleaving over any number of sessions, closed and without file failure, and whatever else the directory holds: replay completes iff some write was accepted and delivers the accepted records stably ordered by hour, changed only in crc32. |
| EndToEnd.ReplayBesideAnother | src/api/feed.cpp:93-97 | The same while the writer of another stream works in the same directory, file operations interleaved in any way. |
| EndToEnd.ReplayClosedWriter | src/storage/binary_record_writer.h:82-123 | The same for the writer object: what it accepted before close() is what a replay of its directory delivers. |
| TradeSeqGate.SeqGate.OnLiveTrade | src/network/trade_seq_gate.h:50-76 | State and answer of a live trade: accept, duplicate, gap with the missing range, or hold. |
| TradeSeqGate.SeqGate.OnReplayTrade | src/network/trade_seq_gate.h:80-94 | State and answer of a retransmitted trade. |
| TradeSeqGate.AcceptedIdsAreConsecutive | src/network/trade_seq_gate.h:50-94 | In every run accepted ids are first, first+1, ..., last, and a recovering gate has missing_begin <= last+1 <= missing_end. |
| TradeSeqGate.AnswersMean | src/network/trade_seq_gate.h:29-94 | After any run each answer iff, told from the ids accepted so far: the next one is accepted, a lower one is a duplicate, a higher one opens the gap between, with its range and count; while a gap is open live trades are held, and a retransmission is taken iff it is the next one. |
| TradeSeqGate.InOrderIsAccepted | src/network/trade_seq_gate.h:50-64 | Trades without jumps all pass a fresh gate. |
| TradeSeqGate.RetransmissionRecovers | src/network/trade_seq_gate.h:80-94 | Whenever the gate cannot trade, retransmitting what is still missing, in order, is accepted in full and reopens it right behind the gap. |
| TradeSeqGate.ReportedRange | src/network/trade_seq_gate.h:42-47 | In every run a range is reported exactly while the gate cannot trade; it starts behind an accepted id, and of its ids exactly those up to last have been accepted. |
| TradeSeqGate.RecoveryLength | src/network/trade_seq_gate.h:80-94 | Recovery ends with exactly the (missing_end - last)-th accepted retransmission, and the range does not change before. |
| TradeSeqGate.RecoveryInRun | src/network/trade_seq_gate.h:50-94 | The same at any point of any run: a recovery ends with exactly missing_end - last further accepted ids. |
| TradeSeqGate.TurnedAwayIsNotSkipped | src/network/trade_seq_gate.h:50-76 | An id turned away as Gap or Hold is later accepted, or reported missing by the next jump beyond it. |
| MessageDispatch.ConnectionManager.OnRawMessage | src/network/connection_manager.cpp:407-540 | Maps, counters and callbacks after a parsed message are those of OnMessage, which TradeMessage, BookMessage and OtherMessage describe from the stream name alone. |
| MessageDispatch.ConnectionManager.HandleTrade | src/network/connection_manager.cpp:465-507 | The trade branch: a gate is created on first use, each action has its counters, and a throwing callback is counted and goes no further. |
| MessageDispatch.ConnectionManager.HandleOrderbook | src/network/connection_manager.cpp:515-533 | The order-book branch with its rollback check and its callback. |
| MessageDispatch.TradeMessage | src/network/connection_manager.cpp:407-507 | A message on a stream spelled symbol, @trade and anything more, the symbol subscribed in any case: delivered to the trade callback iff the symbol's gate accepts its id, with every counter; nothing of order books changes. |
| MessageDispatch.BookMessage | src/network/connection_manager.cpp:407-538 | The same for @depth: delivered unless its id goes back behind the symbol's last one, with every counter; nothing of trades changes. |
| MessageDispatch.OtherMessage | src/network/connection_manager.cpp:407-435 | Names without a symbol and symbols not subscribed only count a parse error; other stream types of a subscribed symbol change nothing. |
| MessageDispatch.LowerAt | src/network/connection_manager.cpp:413-418 | Lower-casing replaces each of the 26 capitals by its own small letter and nothing else. |
| MessageDispatch.SubscribedMeans | src/network/connection_manager.cpp:422-431 | A symbol is subscribed iff some configured name is it in lower case. |
| MessageDispatch.TradesDelivered | src/network/connection_manager.cpp:465-507 | After any message stream a symbol's trade callback has been given exactly the ids a gate of its own accepts when fed the symbol's trade messages. |
| MessageDispatch.BooksDelivered | src/network/connection_manager.cpp:515-533 | After any stream of parsed messages exactly those of a symbol's order books were delivered whose id is as high as all its earlier ones. |
| MessageDispatch.SymbolsAreIndependent | src/network/connection_manager.cpp:465-533 | For any interleaved stream, one symbol's gate, order-book id and callbacks are those of running that symbol's messages alone. |
| MessageDispatch.OnlyCounts | src/network/connection_manager.cpp:413-418 | The messages of a symbol alone: each as often as before, and no other. |
| MessageDispatch.CountersAddUp | src/network/connection_manager.cpp:465-500 | trades_parsed is the sum over symbols of delivered ids; gap_count = recovering_symbols = symbols that cannot trade; missing_records is the sum of their ranges. |
| MessageDispatch.DeliveredIsRange | src/network/connection_manager.cpp:466-500 | Per symbol the delivered ids are a full range: their number is last - first + 1. |
| MessageDispatch.BookIdsNeverDecrease | src/network/connection_manager.cpp:515-533 | With ids the parser passes, delivered order-book ids never decrease per symbol. |
| MessageDispatch.RollbackSlipsExactlyWhen | src/network/connection_manager.cpp:515-533 | For ids of any sign: a symbol's delivered ids fail to ascend iff, among its received ids, a 0 is followed by a negative one before any positive one. |
| MessageDispatch.SentinelNeedsPositiveIds | src/parser/parser.cpp:162-169 | One stream that does so without the parser's check: 0 and then -3 are both delivered. |
| LatencyHistogram.Histogram.Record | src/monitor/latency_histogram.h:36-51 | The sample is added to its power-of-two bucket and to the maximum. |
| LatencyHistogram.Histogram.DrainBuckets | src/monitor/latency_histogram.h:66-71 | All bucket counts are taken and zeroed, with their sum. |
| LatencyHistogram.Histogram.SnapshotAndReset | src/monitor/latency_histogram.h:65-83 | Returns the report on all samples since the last call and starts over. |
| LatencyHistogram.EstimateBracketsRank | src/monitor/latency_histogram.h:101-112 | For any rank the estimate e and the exact value q of the sorted samples satisfy q < e <= 2q for q >= 1 below the top bucket, e = 2 for q = 0, e = 2^64 - 1 in the top bucket; the final return 0 is never reached. |
| LatencyHistogram.ReportIsAccurate | src/monitor/latency_histogram.h:65-112 | All four percentiles of a report satisfy this for their nearest ranks, and p50 <= p95 <= p99 <= p99.9. |
| LatencyHistogram.TargetsAreCeilings | src/monitor/latency_histogram.h:88-99 | While total * 999 + 999 fits 64 bits the targets are the ceilings of total * percentile. |
| LatencyHistogram.TargetsFitExactlyWhen | src/monitor/latency_histogram.h:88-99 | For every total and percentile the target is the ceiling iff the sum before the division fits 64 bits. |
| LatencyHistogram.CountAndMaximum | src/monitor/latency_histogram.h:65-83 | A report's count is the number of samples; its maximum is one of them and none is larger; without samples everything is 0. |
| HistogramRace.EverySampleCountedOnce | src/monitor/latency_histogram.h:36-83 | Under any interleaving of atomic operations and snapshot calls each sample is in exactly one call or still in its bucket, each call's counts are those of its samples, and calls plus buckets total all increments. |
| HistogramRace.AttributionIsFinal | src/monitor/latency_histogram.h:68-71 | A counted sample never moves to another call. |
| HistogramRace.FinishedCallLeavesNothing | src/monitor/latency_histogram.h:68-74 | After a call has finished nothing recorded before it began is still pending. |
| HistogramRace.OlderSamplesAreCounted | src/monitor/latency_histogram.h:65-83 | The same told from the run: once a call that began after some steps has finished, none of the samples recorded in those steps is still in its bucket. |
| HistogramRace.WindowReport | src/monitor/latency_histogram.h:72-83 | Apart from the maximum a call returns the sequential report on exactly the samples it counted. |
| HistogramRace.NoMaximumIsLost | src/monitor/latency_histogram.h:46-50 | With no recorder under way, the largest value is the current maximum or one a snapshot took, despite failed and spurious exchanges; without a reset it is the current one. |
| HistogramRace.MaximumStartsOver | src/monitor/latency_histogram.h:74 | After a snapshot has taken the maximum, whatever is the maximum or is reported by later snapshots has been recorded since or was on its way. |
| ClockOffset.Calibrator.OnSample | src/network/clock_offset.h:58-91 | Each rejection reason exactly when it applies; accepted samples set the offset, others leave it. |
| ClockOffset.Calibrator.OnTransportFailure | src/network/clock_offset.h:52-55 | Counts a failure and keeps the offset. |
| ClockOffset.Calibrator.OffsetUs | src/network/clock_offset.h:97-99 | The last accepted sample over the whole history, 0 when there is none; accepts and failures add up to the calls. |
| ClockOffset.AcceptableMeans | src/network/clock_offset.h:58-91 | A sample counts iff it has a server time, its local times are in order and at most 200 ms apart, and the server is at most ten seconds off their middle. |
| ClockOffset.NewestCounts | src/network/clock_offset.h:86-99 | The newest such sample sets the offset to server time less the middle of the local times. |
| ClockOffset.OffsetIsBounded | src/network/clock_offset.h:79-99 | After any attempts the offset in use is within ten seconds. |
| ClockOffset.SampleErrorBound | src/network/clock_offset.h:69-71 | One truthful sample is off by more than -1000 - rtt/2 and at most rtt - rtt/2 microseconds. |
| ClockOffset.CalibrationBound | src/network/clock_offset.h:58-99 | After any run of truthful samples and failures with one acceptance, the offset is within (-101000, +100000] of the true one. |
| ClockOffset.BoundIsTight | src/network/clock_offset.h:69-90 | Both ends are reached by acceptable samples. |
| ClockOffset.LatencyInheritsBound | src/network/clock_offset.h:118-131 | A reported latency is within the same bounds of the true one, every true latency of 101 ms or more is reported, none below -100 ms is. |
| ClockOffset.LatencyOnExchangeClock | src/network/clock_offset.h:118-131 | What arrives d microseconds later by the corrected clock is reported as d iff d is not negative and the exchange gave a time. |
| RingBuffer.Ring.Create | src/cache/ring_buffer.h:16-18 | Capacity 0 is refused; otherwise an empty buffer. |
| RingBuffer.Ring.Push | src/cache/ring_buffer.h:20-27 | The item becomes the newest of the history the buffer stands for. |
| RingBuffer.Ring.Size | src/cache/ring_buffer.h:29-32 | min(pushes, capacity). |
| RingBuffer.Ring.Snapshot | src/cache/ring_buffer.h:37-49 | The last min(max_count, pushes, capacity) items, oldest first. |
| RingBuffer.LastIsSuffix | src/cache/ring_buffer.h:37-49 | The last n items are a suffix of the history in its order, n long or all of it. |
| RingBuffer.SlotOfIndex | src/cache/ring_buffer.h:44-47 | Counting back from head and forward with wraparound meets the slot each item was stored in. |

## Left out

- StoreHistory.RoundTrip: records with a non-positive `recv_ts_us` (filed under the wall clock) and times after year 9999 are excluded; the file operations are defined for them.
- ReplayTheory.PruningIsExact: same exclusion of non-positive times, which the reader's `contains` and the file name would judge differently.
- RecordIntegrity.PayloadBurstIsRejected: excludes `crc32 == 0` (accepted unchecked by design) and bursts that straddle the CRC field and the payload.
- RecordWriter.BinaryRecordWriter.WriteToFile: a stream that has failed keeps a prefix of its buffer; what it pushes out when it is closed later counts as written at the failure.
- RecordWriter.BinaryRecordWriter.Open: assigning a new thread over one that is still joinable after a failure without close(), which ends the process.
- RecordReader.BinaryRecordReader.ReadNext: reads do not fail; in the source a failed read looks like a torn tail, and the rest of that file is passed over.
- FileRoll.ListRecordFiles: the listing does not fail; in the source entries whose status cannot be read are skipped, and a directory that cannot be tested counts as empty.
- WriterRefinement.TracedWriter.Close: a call during a batch of the worker is covered by the protocol model; the object's methods run one after the other.
- EndToEnd.ReplayAfterClose: assumes that no file operation failed and that nothing else touches the stream's own files.
- StoreHistory.WindowedReplayIsFilteredReplay: the directory does not change during a replay.
- ClockOffset.CalibrationBound: the true offset is taken as constant over the run.
- ClockOffset.Calibrator.OffsetUs: the hot path's two separate atomic reads are not interleaved with a calibration.
- FileRoll.SortNames: `std::sort` is modelled by insertion; only its result matters.
- MessageDispatch.ConnectionManager.OnRawMessage: the latency histograms and their anomaly counters, and messages that are not JSON or not stream data.
- MessageDispatch.ConnectionManager.HandleTrade: the latency metrics, as above.
- MessageDispatch.ConnectionManager.HandleOrderbook: the latency metrics, as above.
- A data directory that does not exist, entries that are not regular files, and power loss that reorders writes.
- 64-bit wrap-around of ids, timestamps, bucket counts and counters; header and replay counts are modelled modulo 2^64.
- Relaxed memory ordering beyond single atomic operations: the race model interleaves them in one order.
- The agreement of a window's count and maximum under concurrent resets, which the source disclaims.
- JSON and number parsing: dispatch starts from the parser's verdict.
- WebSocket, TLS, HTTP, configuration, reporting, benchmarks and the public facade: no further hard property.
