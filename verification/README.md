# Smart transfer system and WPS thesis formatter in Dafny

This project models the deterministic core of a repository that holds two
programs, and proves properties of the model.

* **The WPS thesis formatter** is a JavaScript macro for WPS Writer. It
  detects the parts of a Chinese graduation thesis: the integrity
  declaration, the abstracts, the keywords, the table of contents, the
  chapters, the references and the acknowledgement. It then puts page
  breaks in front of them, renumbers the citation markers and splits
  tables that cross a page. The model covers its paragraph text
  utilities, the heading-format cascade, the paragraph classifier, the
  position search, the citation scan, page-break insertion and the
  continuation-table decision.
* **The smart transfer system** is a chunked file-transfer service. It has
  a Spring server and a Vue client. The model covers:
  * the server's congestion control: TCP Reno after section 3.2 of
    RFC 5681, TCP Vegas, the RTT estimator of section 2 of RFC 6298, the
    packet-loss tracker and the algorithm-switch history;
  * the file services: naming, byte ranges after section 2.1 of
    RFC 7233, upload and merge decisions, download chunking, folders,
    the recycle bin, users, transfer tasks and the dashboard counts;
  * the client's pure utilities and its three Pinia stores.

## How the model is built

* A WPS document is the sequence of its paragraphs. WPS paragraph `i`,
  counted from 1, is element `i - 1`, and -1 stands for "not found" as in
  the macro. A page break is the character U+000C inside a paragraph.
* What the macro asks the host, such as the list string, the style name,
  whether there is a picture, row page numbers and cross-reference
  items, becomes a field or a parameter.
* JavaScript regular expressions become predicates over maximal character
  runs. Where the engine can backtrack, as with the lookahead `(?!\.)`,
  the model is proved equal to the regular-expression reading.
* Database tables and Redis entries become sequences and maps of
  immutable rows. A service call becomes a function from the old tables
  to the new tables and a result, with the source's error messages as
  `Result` failures.
* Clocks, random ids, UUIDs and batch numbers are parameters supplied by
  the caller.
* The file and folder tables use the persistence framework's logical
  delete on `del_flag` (`entity/FileInfo.java` line 89 and
  `domain/Folder.java` line 57 of the server). Every lookup, update and
  delete the framework builds for them sees only live rows, and its
  delete sets the flag instead of removing the row. Only the
  native SQL of the file and transfer-task mappers removes rows (assuming
  its table names denote the entities' tables; see Left out). The recycle bin models this.
  The consequence is that restoring a record, as written, cannot bring
  back the rows it soft-deleted. `RecycleBin.RestoreFile` is the intended
  restore (see Findings).
* The storage statistics are modelled as written, with the substring
  category test of the source (`UserService.GetStorageStats`). They are
  also modelled with the whole-name test the lists evidently intend
  (`UserService.GetStorageStatsCorrected`). Both have the same totals,
  and only the split among categories differs.
* Java `long` arithmetic uses unbounded integers. Java's `/` and `%`
  truncate toward zero, and so do `CongestionCommon.JavaDiv` and
  `CongestionCommon.JavaRem`.
* Walking up folder parents never ends on a cycle in the source. The
  model walks with a set of visited folders and reports `Diverges` when it
  comes back to one.
* Each module follows one source file or one object of the macro, in a
  `.dfy` file named after it. `Wrappers` holds `Option` and `Result`.
  `Text` holds the string primitives of the two runtimes.

## Model

| member | source | states |
|---|---|---|
| CongestionCommon.JavaDiv | smart-transfer-server/src/main/java/com/server/smarttransferserver/congestion/RenoAlgorithm.java:139 | Java's `long` division: the quotient is truncated toward zero, so its magnitude times the divisor's lies within one divisor of the dividend's and its sign is the product of the operands' signs |
| CongestionCommon.Clamp | smart-transfer-server/src/main/java/com/server/smarttransferserver/congestion/RenoAlgorithm.java:123 | the window clamp of every onAck: never below the minimum window, never above the maximum when the range is non-empty, unchanged inside the range |
| CongestionCommon.Rate | smart-transfer-server/src/main/java/com/server/smarttransferserver/congestion/RenoAlgorithm.java:170-173 | getRate is the largest whole number of bytes per second that the window can deliver in one RTT, the RTT counted as at least 1 ms |
| CongestionCommon.BoundedAppend | smart-transfer-server/src/main/java/com/server/smarttransferserver/congestion/VegasAlgorithm.java:130-133 | a queue offer followed by one poll past the cap: the new element is last, the length stays within the cap, and the oldest element is the one dropped |
| Reno.Initialize | smart-transfer-server/src/main/java/com/server/smarttransferserver/congestion/RenoAlgorithm.java:60-70 | the starting window is the configured initial window capped at ten segments; the threshold is the configured one, the RTT guess 100 ms and the phase slow start |
| Reno.SlowStartGrowth | smart-transfer-server/src/main/java/com/server/smarttransferserver/congestion/RenoAlgorithm.java:86-87 | a slow-start ACK grows the window by a whole number of segments, at least one, and by no more than the bytes acknowledged when those reach a segment |
| Reno.AvoidanceGrowth | smart-transfer-server/src/main/java/com/server/smarttransferserver/congestion/RenoAlgorithm.java:98-110 | in congestion avoidance a full RTT since the last increase earns one segment and restarts the clock; within an RTT the growth is the non-negative fraction MSS*MSS*elapsed/(cwnd*rtt) and the clock stays |
| Reno.AvoidanceGrowthBelowSegment | smart-transfer-server/src/main/java/com/server/smarttransferserver/congestion/RenoAlgorithm.java:105-110 | within one RTT on a window of at least one segment the fractional growth is less than one segment, so the window grows by at most a segment per RTT |
| Reno.AckStep | smart-transfer-server/src/main/java/com/server/smarttransferserver/congestion/RenoAlgorithm.java:83-120 | the phase rules of onAck leave the threshold and the RTT alone |
| Reno.OnAck | smart-transfer-server/src/main/java/com/server/smarttransferserver/congestion/RenoAlgorithm.java:80-126 | onAck records the RTT and keeps the threshold; the window becomes, clamped to [minCwnd, maxCwnd], the old one plus the slow-start growth, plus the congestion-avoidance growth (with its clock), plus one segment in fast recovery; slow start or fast recovery turns into congestion avoidance exactly when the grown window reaches the threshold; every other phase is left alone |
| Reno.SlowStartDoubles | smart-transfer-server/src/main/java/com/server/smarttransferserver/congestion/RenoAlgorithm.java:83-90 | slow start is exponential: acknowledging a whole window of segments doubles it when the doubled window lies inside the configured range |
| Reno.OnAckNeverShrinks | smart-transfer-server/src/main/java/com/server/smarttransferserver/congestion/RenoAlgorithm.java:80-126 | an ACK never shrinks a window that lies inside the configured range, whatever the phase, provided time does not run backwards |
| Reno.OnLoss | smart-transfer-server/src/main/java/com/server/smarttransferserver/congestion/RenoAlgorithm.java:135-162 | a loss in any of the three phases sets the threshold to max(cwnd/2, minCwnd); in slow start or congestion avoidance it enters fast recovery with the window three segments above that threshold; in fast recovery it returns to slow start with the window max(MSS, minCwnd); the window never ends below the minimum |
| Reno.OnLossHalves | smart-transfer-server/src/main/java/com/server/smarttransferserver/congestion/RenoAlgorithm.java:139-142 | multiplicative decrease: on a window of at least twice the minimum the threshold is half the window, and the window shrinks once it exceeds six segments |
| Reno.GetRate | smart-transfer-server/src/main/java/com/server/smarttransferserver/congestion/RenoAlgorithm.java:170-173 | the rate is the window in bytes per second at the current RTT, truncated, the RTT taken as at least 1 ms |
| Reno.RunKeepsInvariant | smart-transfer-server/src/main/java/com/server/smarttransferserver/congestion/RenoAlgorithm.java:80-162 | any sequence of ACKs and losses keeps Reno in its three phases with a threshold that is the configured one or at least the minimum window; after any event the window is at least the minimum, and after an ACK at most the maximum |
| Reno.InitializeInvariant | smart-transfer-server/src/main/java/com/server/smarttransferserver/congestion/RenoAlgorithm.java:196-198 | every state reached from initialize (or reset) by ACKs and losses satisfies that invariant |
| Vegas.Initialize | smart-transfer-server/src/main/java/com/server/smarttransferserver/congestion/VegasAlgorithm.java:96-109 | the starting window is the configured initial window capped at 5 MiB; no base RTT yet (Long.MAX_VALUE), 100 ms current and last RTT, slow start, empty sample windows |
| Vegas.MinPositive | smart-transfer-server/src/main/java/com/server/smarttransferserver/congestion/VegasAlgorithm.java:242-245 | the minimum over the positive samples is one of them and no larger than any of them; with no positive sample it is the default |
| Vegas.UpdateRttSample | smart-transfer-server/src/main/java/com/server/smarttransferserver/congestion/VegasAlgorithm.java:233-250 | a sample in (0, 10000) ms joins the 20-entry window and can only lower the base RTT to at most the sample; any other sample changes nothing; nothing but the window and the base RTT changes |
| Vegas.AdjustWindowByDelay | smart-transfer-server/src/main/java/com/server/smarttransferserver/congestion/VegasAlgorithm.java:168-198 | with a usable base RTT the window grows by one KiB when the expected-minus-actual gap is below ALPHA KiB, shrinks by one KiB (not below the minimum) when it is above BETA KiB, and stays otherwise; without a usable base RTT it always grows by one KiB |
| Vegas.NoQueueingNoGap | smart-transfer-server/src/main/java/com/server/smarttransferserver/congestion/VegasAlgorithm.java:176-186 | when the current RTT is no longer than the base RTT, the expected-minus-actual throughput gap is not positive |
| Vegas.AdjustGrowsWithoutQueueing | smart-transfer-server/src/main/java/com/server/smarttransferserver/congestion/VegasAlgorithm.java:188-191 | with a base RTT set and no queueing delay the delay rule grows the window |
| Vegas.AdjustShrinksOnlyWhenQueued | smart-transfer-server/src/main/java/com/server/smarttransferserver/congestion/VegasAlgorithm.java:192-196 | the delay rule shrinks the window only when the current RTT exceeds a known base RTT |
| Vegas.OnAck | smart-transfer-server/src/main/java/com/server/smarttransferserver/congestion/VegasAlgorithm.java:119-161 | onAck never raises the base RTT and leaves it at most the RTT just seen, records the old window, ends clamped to [minCwnd, maxCwnd]; in slow start the window is the old one plus the acknowledged bytes, clamped; a slow-start RTT rise above lastRtt+GAMMA with a base RTT known sets the threshold to the grown window and enters congestion avoidance, otherwise slow start ends exactly when the grown window reaches the threshold; outside slow start the window is the delay rule applied at the new RTT and base RTT, clamped |
| Vegas.OnLoss | smart-transfer-server/src/main/java/com/server/smarttransferserver/congestion/VegasAlgorithm.java:207-226 | a loss sets the threshold to max(cwnd/2, minCwnd) and the window to it, returns to slow start and forgets the base RTT and the RTT samples; the window samples and RTTs stay |
| Vegas.SetCwnd | smart-transfer-server/src/main/java/com/server/smarttransferserver/congestion/VegasAlgorithm.java:261-264 | an imposed window is taken as is unless it lies below the minimum, which it is raised to; nothing else changes |
| Vegas.GetRtt | smart-transfer-server/src/main/java/com/server/smarttransferserver/congestion/VegasAlgorithm.java:288-290 | the reported RTT is the base RTT once known, the current RTT before |
| Vegas.GetRate | smart-transfer-server/src/main/java/com/server/smarttransferserver/congestion/VegasAlgorithm.java:267-270 | the rate is the window in bytes per second at the current RTT, truncated, the RTT taken as at least 1 ms |
| Vegas.InitializeInvariant | smart-transfer-server/src/main/java/com/server/smarttransferserver/congestion/VegasAlgorithm.java:96-109 | a fresh Vegas has sample windows within their caps and a base RTT no larger than any sample |
| Vegas.OnAckBaseRtt | smart-transfer-server/src/main/java/com/server/smarttransferserver/congestion/VegasAlgorithm.java:119-161 | under that invariant an ACK leaves the base RTT exactly min(old base RTT, rtt) and keeps the invariant: the minimum over the window adds nothing |
| Vegas.OnLossInvariant | smart-transfer-server/src/main/java/com/server/smarttransferserver/congestion/VegasAlgorithm.java:207-226 | a loss keeps the invariant |
| RttMeasurement.Reset | smart-transfer-server/src/main/java/com/server/smarttransferserver/congestion/RttMeasurement.java:190-197 | reset restores the constructor's state: no samples, no send times, zero estimates, minimum Long.MAX_VALUE and maximum 0 |
| RttMeasurement.RecordSendTime | smart-transfer-server/src/main/java/com/server/smarttransferserver/congestion/RttMeasurement.java:71-73 | recording a send time adds or overwrites that sequence number's time and changes nothing else |
| RttMeasurement.AddSample | smart-transfer-server/src/main/java/com/server/smarttransferserver/congestion/RttMeasurement.java:97-124 | a sample joins the 100-entry window and the running extremes; the first sample seeds SRTT with R and RTTVAR with R/2, later ones set RTTVAR to (3*RTTVAR+abs(SRTT-R))/4 before SRTT to (7*SRTT+R)/8, truncating |
| RttMeasurement.RecordAck | smart-transfer-server/src/main/java/com/server/smarttransferserver/congestion/RttMeasurement.java:81-90 | an unknown sequence number yields -1 and changes nothing; a known one is forgotten and its elapsed time is added as a sample and returned |
| RttMeasurement.SendThenAck | smart-transfer-server/src/main/java/com/server/smarttransferserver/congestion/RttMeasurement.java:71-90 | the ACK of a recorded send returns the elapsed time, and a second ACK of the same number returns -1 |
| RttMeasurement.SmoothingBetween | smart-transfer-server/src/main/java/com/server/smarttransferserver/congestion/RttMeasurement.java:113-120 | each update moves SRTT and RTTVAR toward the new term: each ends between its old value and the new term |
| RttMeasurement.GetSmoothedRtt | smart-transfer-server/src/main/java/com/server/smarttransferserver/congestion/RttMeasurement.java:131-133 | the reported SRTT is never negative and equals the stored one when that is positive |
| RttMeasurement.GetMinRtt | smart-transfer-server/src/main/java/com/server/smarttransferserver/congestion/RttMeasurement.java:149-151 | the reported minimum is 0 before any sample, the smallest sample after |
| RttMeasurement.GetMaxRtt | smart-transfer-server/src/main/java/com/server/smarttransferserver/congestion/RttMeasurement.java:158-160 | the reported maximum is never negative and equals the stored one when positive |
| RttMeasurement.GetAverageRtt | smart-transfer-server/src/main/java/com/server/smarttransferserver/congestion/RttMeasurement.java:167-175 | the average is 0 for an empty window and otherwise the mean of the window truncated to whole milliseconds |
| RttMeasurement.CalculateRto | smart-transfer-server/src/main/java/com/server/smarttransferserver/congestion/RttMeasurement.java:183-185 | the RTO exceeds SRTT by exactly four RTTVAR, so it is at least SRTT and has no lower bound of its own |
| RttMeasurement.EmptyInvariant | smart-transfer-server/src/main/java/com/server/smarttransferserver/congestion/RttMeasurement.java:57-64 | the fresh measurement satisfies the invariant: window within 100, every sample between the running minimum and maximum, SRTT and RTTVAR non-negative |
| RttMeasurement.AddSampleInvariant | smart-transfer-server/src/main/java/com/server/smarttransferserver/congestion/RttMeasurement.java:97-124 | adding a non-negative sample keeps that invariant |
| RttMeasurement.AverageBetweenExtremes | smart-transfer-server/src/main/java/com/server/smarttransferserver/congestion/RttMeasurement.java:149-175 | under the invariant the reported average lies between the reported minimum and maximum |
| PacketLoss.Reset | smart-transfer-server/src/main/java/com/server/smarttransferserver/congestion/PacketLossDetector.java:222-230 | reset empties the flight, the ACK set and the duplicate counts and zeroes every counter |
| PacketLoss.RecordSent | smart-transfer-server/src/main/java/com/server/smarttransferserver/congestion/PacketLossDetector.java:70-82 | a sent packet is in flight from now with retransmit count 0, replacing any entry with its number; nothing else changes |
| PacketLoss.HandleFastRetransmit | smart-transfer-server/src/main/java/com/server/smarttransferserver/congestion/PacketLossDetector.java:152-168 | every in-flight packet numbered above the ACK counts once as a fast-retransmit loss, and a loss is reported iff there is one |
| PacketLoss.RecordAckAsWritten | smart-transfer-server/src/main/java/com/server/smarttransferserver/congestion/PacketLossDetector.java:90-119 | as written: the ACK is recorded, the packet leaves the flight, and the last acknowledged number never decreases |
| PacketLoss.AsWrittenNeverDetects | smart-transfer-server/src/main/java/com/server/smarttransferserver/congestion/PacketLossDetector.java:95-108 | because the duplicate count is removed just before it is read, every duplicate counts as the first and recordAck never reports a loss |
| PacketLoss.AsWrittenMissesThirdDuplicate | smart-transfer-server/src/main/java/com/server/smarttransferserver/congestion/PacketLossDetector.java:95-108 | three duplicate ACKs of packet 5 with packet 6 still in flight report no loss as written |
| PacketLoss.RecordAck | smart-transfer-server/src/main/java/com/server/smarttransferserver/congestion/PacketLossDetector.java:90-119 | with the count kept: the packet leaves the flight, the last acknowledged number becomes the maximum, a new highest ACK reports nothing, and a duplicate raises its count by one and reports a loss iff the count reaches three while a later packet is in flight |
| PacketLoss.ThirdDuplicateDetects | smart-transfer-server/src/main/java/com/server/smarttransferserver/congestion/PacketLossDetector.java:100-108 | with the count kept, the first two duplicates report nothing and the third reports a loss exactly when a later packet is in flight |
| PacketLoss.CorrectedCatchesThirdDuplicate | smart-transfer-server/src/main/java/com/server/smarttransferserver/congestion/PacketLossDetector.java:100-108 | on the same three duplicate ACKs the corrected detector reports the loss |
| PacketLoss.CheckTimeout | smart-transfer-server/src/main/java/com/server/smarttransferserver/congestion/PacketLossDetector.java:126-144 | the reported packets are exactly the in-flight ones whose elapsed time exceeds their RTO, unchanged; each counts once as a timeout loss and none leaves the flight |
| PacketLoss.MarkRetransmit | smart-transfer-server/src/main/java/com/server/smarttransferserver/congestion/PacketLossDetector.java:175-184 | an in-flight packet counts one more retransmission and is re-timed from now; an unknown number changes nothing |
| PacketLoss.RetransmitClearsTimeout | smart-transfer-server/src/main/java/com/server/smarttransferserver/congestion/PacketLossDetector.java:126-184 | a packet just retransmitted is not reported by a timeout check at the same instant |
| PacketLoss.OperationsKeepCounters | smart-transfer-server/src/main/java/com/server/smarttransferserver/congestion/PacketLossDetector.java:46-48 | every operation keeps totalLost equal to timeoutLost plus fastRetransmitLost |
| PacketLoss.InflightCount | smart-transfer-server/src/main/java/com/server/smarttransferserver/congestion/PacketLossDetector.java:204-206 | the in-flight count is the number of distinct sequence numbers in flight |
| PacketLoss.InflightBytes | smart-transfer-server/src/main/java/com/server/smarttransferserver/congestion/PacketLossDetector.java:213-217 | the in-flight bytes are the sum of the in-flight sizes, never negative when no size is |
| PacketLoss.SizeSumUpdate | smart-transfer-server/src/main/java/com/server/smarttransferserver/congestion/PacketLossDetector.java:213-217 | the sum splits as one packet's size plus the sum over the others, whatever the order |
| PacketLoss.SendAckRestoresBytes | smart-transfer-server/src/main/java/com/server/smarttransferserver/congestion/PacketLossDetector.java:70-119 | sending a new packet adds its size to the bytes in flight and acknowledging it takes them away again |
| SwitchHistory.AddSwitchRecord | smart-transfer-server/src/main/java/com/server/smarttransferserver/congestion/AdaptiveAlgorithmMetrics.java:108-115 | a record is appended and becomes the last one; the history stays within 50, the oldest record being the one dropped |
| SwitchHistory.AddAllKeepsLatest | smart-transfer-server/src/main/java/com/server/smarttransferserver/congestion/AdaptiveAlgorithmMetrics.java:98-115 | however many records are logged, the history is exactly the latest 50 of everything logged, in order |
| SwitchHistory.GetRecentSwitchHistory | smart-transfer-server/src/main/java/com/server/smarttransferserver/congestion/AdaptiveAlgorithmMetrics.java:123-129 | the whole history when it holds at most count records, else the last count in order; a negative count below the size fails as subList does |
| SwitchHistory.RecentOfLogged | smart-transfer-server/src/main/java/com/server/smarttransferserver/congestion/AdaptiveAlgorithmMetrics.java:98-129 | from a fresh history, asking for the latest count (at most 50) yields the latest count of everything logged |
| CongestionStore.Stamped | smart-transfer-web/src/store/congestionStore.js:37-40 | a stamped update keeps the update's fields and adds the timestamp |
| CongestionStore.UpdateMetrics | smart-transfer-web/src/store/congestionStore.js:29-45 | the update's fields override the current ones, the other current fields stay, the time is stamped, and the stamped update becomes the last history entry |
| CongestionStore.Push | smart-transfer-web/src/store/congestionStore.js:37-44 | a history entry is appended and becomes last; the history stays within 100, losing its oldest entry |
| CongestionStore.RunBoundsHistory | smart-transfer-web/src/store/congestionStore.js:29-45 | after any run of updates the history is the latest 100 of the old history and the stamped updates, so it never exceeds 100 entries |
| CongestionStore.PushAllKeepsLastHundred | smart-transfer-web/src/store/congestionStore.js:37-44 | pushing entries one by one leaves the latest 100 of everything pushed |
| CongestionStore.ClearHistory | smart-transfer-web/src/store/congestionStore.js:59-61 | clearing empties the history and keeps the current metrics |
| CongestionStore.Reset | smart-transfer-web/src/store/congestionStore.js:63-79 | reset yields the initial metrics and an empty history whatever the state |
| CongestionStore.ResetThenUpdate | smart-transfer-web/src/store/congestionStore.js:29-79 | after a reset one update yields the initial metrics overridden by it and a one-entry history |
| FileInfoService.SplitName | smart-transfer-server/src/main/java/com/server/smarttransferserver/service/impl/FileInfoServiceImpl.java:492-502 | the base and the extension concatenate back to the name; the extension is non-empty exactly when the last dot is neither the first nor the last character, and then it starts with that dot and holds no other |
| FileInfoService.MaxNumber | smart-transfer-server/src/main/java/com/server/smarttransferserver/service/impl/FileInfoServiceImpl.java:505-515 | the largest n among the names of the form base(n)ext, at least every such number and one of them when positive, 0 when there is none; it fails exactly when one of the numbers is beyond the int range, as Integer.parseInt throws |
| FileInfoService.IntSucc | smart-transfer-server/src/main/java/com/server/smarttransferserver/service/impl/FileInfoServiceImpl.java:518 | maxNumber + 1 in int arithmetic: the successor below the int maximum, and the wrap to the minimum at it |
| FileInfoService.GenerateUniqueFileName | smart-transfer-server/src/main/java/com/server/smarttransferserver/service/impl/FileInfoServiceImpl.java:490-525 | generating a numbered name fails exactly when reading the numbers in use fails |
| FileInfoService.GeneratedShape | smart-transfer-server/src/main/java/com/server/smarttransferserver/service/impl/FileInfoServiceImpl.java:517-519 | the generated name is base + "(" + (max+1) + ")" + ext |
| FileInfoService.BuiltIsNumbered | smart-transfer-server/src/main/java/com/server/smarttransferserver/service/impl/FileInfoServiceImpl.java:505 | a name built as base + "(" + digits + ")" + ext matches the numbering pattern with the digits' value |
| FileInfoService.NumberedAboveAllIsNew | smart-transfer-server/src/main/java/com/server/smarttransferserver/service/impl/FileInfoServiceImpl.java:505-519 | a numbered name whose number exceeds every number in use is none of the names in use |
| FileInfoService.UniqueNameIsFresh | smart-transfer-server/src/main/java/com/server/smarttransferserver/service/impl/FileInfoServiceImpl.java:490-525 | below the int limit the generated name is numbered one above every number in use, is longer than the original, and differs from every name it was generated against |
| FileInfoService.OriginalNotNumbered | smart-transfer-server/src/main/java/com/server/smarttransferserver/service/impl/FileInfoServiceImpl.java:505 | a name never matches the numbering pattern built from its own split |
| FileInfoService.Duplicates | smart-transfer-server/src/main/java/com/server/smarttransferserver/service/impl/FileInfoServiceImpl.java:422-427 | the duplicates are files of that name, folder and user other than the excluded file, and there are none exactly when no file of the table qualifies |
| FileInfoService.MaxOfSameNames | smart-transfer-server/src/main/java/com/server/smarttransferserver/service/impl/FileInfoServiceImpl.java:505-515 | names that all equal the original hold no numbered form of it, so the maximum is 0 |
| FileInfoService.CheckAndRenameOutcome | smart-transfer-server/src/main/java/com/server/smarttransferserver/service/impl/FileInfoServiceImpl.java:422-480 | the duplicate check never fails; it keeps the name exactly when no other file of that name is in the folder, and otherwise yields base(1)ext |
| FileInfoService.IndexOfId | smart-transfer-server/src/main/java/com/server/smarttransferserver/service/impl/FileInfoServiceImpl.java:250 | the lookup finds the first file with the id, and finds none exactly when no file has it |
| FileInfoService.RenameFile | smart-transfer-server/src/main/java/com/server/smarttransferserver/service/impl/FileInfoServiceImpl.java:245-266 | a missing or blank name is rejected before the file is looked up, an unknown file is rejected, and a rename changes only the renamed file's name |
| FileInfoService.RenameFileResult | smart-transfer-server/src/main/java/com/server/smarttransferserver/service/impl/FileInfoServiceImpl.java:245-266 | a rename of an existing file with a non-blank name succeeds and gives exactly the requested name iff no other file of that name shares the folder, base(1)ext otherwise |
| FileInfoService.NormalizeTarget | smart-transfer-server/src/main/java/com/server/smarttransferserver/service/impl/FileInfoServiceImpl.java:281 | a null or zero target folder becomes the root 0, and any other target is kept |
| FileInfoService.MoveFile | smart-transfer-server/src/main/java/com/server/smarttransferserver/service/impl/FileInfoServiceImpl.java:274-304 | an unknown file or a positive target that is not a folder is rejected; a move changes only the moved file, puts it in the normalised folder and keeps its name when the folder does not change |
| FileInfoService.MoveFileRenamesOnClash | smart-transfer-server/src/main/java/com/server/smarttransferserver/service/impl/FileInfoServiceImpl.java:294-303 | a move into another folder keeps the name unless a file of that name is already there, and then the file arrives as base(1)ext |
| FileInfoService.ExtractExtendName | smart-transfer-server/src/main/java/com/server/smarttransferserver/service/impl/FileInfoServiceImpl.java:954-963 | an extension exists exactly when a dot lies strictly inside the name; it is the lower-cased text after the last dot, non-empty and dot-free |
| FileInfoService.GetContentType | smart-transfer-server/src/main/java/com/server/smarttransferserver/service/impl/FileInfoServiceImpl.java:906-949 | a null or unknown extension is served as application/octet-stream |
| FileInfoService.ContentTypeIgnoresCase | smart-transfer-server/src/main/java/com/server/smarttransferserver/service/impl/FileInfoServiceImpl.java:909 | the MIME lookup ignores case: an extension and its lower-cased form get the same type |
| FileInfoService.ContentTypeDefaultExactly | smart-transfer-server/src/main/java/com/server/smarttransferserver/service/impl/FileInfoServiceImpl.java:906-949 | the default type is returned exactly for null and unknown extensions, since no known extension maps to it |
| FileInfoService.KnownTypesAreShort | smart-transfer-server/src/main/java/com/server/smarttransferserver/service/impl/FileInfoServiceImpl.java:909-947 | every MIME type of the table is shorter than the default type |
| FileInfoService.ContentTypeAgreesWithCategory | smart-transfer-server/src/main/java/com/server/smarttransferserver/service/impl/FileInfoServiceImpl.java:910-932 | every extension served as image/, video/ or audio/ belongs to that category of the file-type table |
| FileInfoService.ParseLong | smart-transfer-server/src/main/java/com/server/smarttransferserver/service/impl/FileInfoServiceImpl.java:784-786 | Long.parseLong on ASCII text: a digit string within the long range is read as its value, one beyond it or the empty text throws, and an unsigned result is never negative |
| FileInfoService.ParseRangeAsWritten | smart-transfer-server/src/main/java/com/server/smarttransferserver/service/impl/FileInfoServiceImpl.java:773-800 | as written: no header or one not starting with bytes= serves the whole file, and a served range starts inside the file, ends before its length and has length end-start+1 |
| FileInfoService.RangeOfParts | smart-transfer-server/src/main/java/com/server/smarttransferserver/service/impl/FileInfoServiceImpl.java:776-800 | an empty first position is 416; any served range starts inside the file and ends before its length |
| FileInfoService.AsWrittenAcceptsBackwardRange | smart-transfer-server/src/main/java/com/server/smarttransferserver/service/impl/FileInfoServiceImpl.java:793-800 | "bytes=5-3" on a ten-byte file is served as written with length -1 |
| FileInfoService.ParseRange | smart-transfer-server/src/main/java/com/server/smarttransferserver/service/impl/FileInfoServiceImpl.java:773-800 | the corrected handling serves only ranges with start <= end inside the file and length end-start+1 >= 1, answers 416 exactly when the original did or served a non-positive length, and otherwise agrees with it |
| FileInfoService.ParseRangeRejectsBackward | smart-transfer-server/src/main/java/com/server/smarttransferserver/service/impl/FileInfoServiceImpl.java:793-800 | the corrected handling answers "bytes=5-3" with 416 and still serves "bytes=3-" as bytes 3..9 of ten |
| FileInfoService.OpenEndedAsWritten | smart-transfer-server/src/main/java/com/server/smarttransferserver/service/impl/FileInfoServiceImpl.java:785-786 | a missing last position means the last byte: "bytes=3-" on ten bytes is bytes 3..9 |
| FileInfoService.ParseRangeServesWellFormed | smart-transfer-server/src/main/java/com/server/smarttransferserver/service/impl/FileInfoServiceImpl.java:773-800 | every header "bytes=a-b" with a <= b below the length is served as exactly the bytes a..b |
| FileInfoService.DigitsHeaderServed | smart-transfer-server/src/main/java/com/server/smarttransferserver/service/impl/FileInfoServiceImpl.java:773-800 | the same for any digit strings, leading zeros included |
| FileInfoService.ImageTypesAgree | smart-transfer-server/src/main/java/com/server/smarttransferserver/service/impl/FileInfoServiceImpl.java:910-922 | every image entry of the content-type switch has an image/ type and an extension the type table calls an image |
| FileInfoService.VideoTypesAgree | smart-transfer-server/src/main/java/com/server/smarttransferserver/service/impl/FileInfoServiceImpl.java:923-926 | every video entry of the content-type switch has a video/ type and an extension the type table calls a video |
| FileInfoService.AudioTypesAgree | smart-transfer-server/src/main/java/com/server/smarttransferserver/service/impl/FileInfoServiceImpl.java:927-932 | every audio entry of the content-type switch has an audio/ type and an extension the type table calls audio |
| FileTypeUtil.CategoriesDisjoint | smart-transfer-server/src/main/java/com/server/smarttransferserver/util/FileTypeUtil.java:26-51 | the image, document, video and audio extension sets are pairwise disjoint |
| FileTypeUtil.GetExtensionsByType | smart-transfer-server/src/main/java/com/server/smarttransferserver/util/FileTypeUtil.java:86-99 | each of the four category codes yields its own set, and ALL, OTHER and every unknown code the empty set |
| FileTypeUtil.GetFileType | smart-transfer-server/src/main/java/com/server/smarttransferserver/util/FileTypeUtil.java:58-79 | the category is always a code in 1..5, and OTHER for a missing or empty extension |
| FileTypeUtil.GetFileTypeBySet | smart-transfer-server/src/main/java/com/server/smarttransferserver/util/FileTypeUtil.java:58-79 | a non-empty extension gets category k exactly when its lower-cased, trimmed form is in k's set, and OTHER exactly when it is in none, so the order of the tests does not matter |
| FileTypeUtil.MatchesType | smart-transfer-server/src/main/java/com/server/smarttransferserver/util/FileTypeUtil.java:107-116 | ALL matches everything, OTHER matches exactly what is categorised OTHER, and a code outside 0..5 matches nothing |
| FileTypeUtil.MatchesTypeBySet | smart-transfer-server/src/main/java/com/server/smarttransferserver/util/FileTypeUtil.java:107-116 | for the four real categories, a match is membership of the normalised, non-empty extension in the category's set |
| FileDownload.CeilDiv | smart-transfer-server/src/main/java/com/server/smarttransferserver/service/impl/FileDownloadServiceImpl.java:101 | the chunk count is the least q with q*chunkSize at least the size |
| FileDownload.EffectiveChunkSize | smart-transfer-server/src/main/java/com/server/smarttransferserver/service/impl/FileDownloadServiceImpl.java:99 | the requested chunk size when positive, 5 MiB when missing or not positive, so always positive |
| FileDownload.InitDownload | smart-transfer-server/src/main/java/com/server/smarttransferserver/service/impl/FileDownloadServiceImpl.java:85-101 | a missing file and a DELETED file are errors; otherwise the effective chunk size and the least number of chunks that covers the file |
| FileDownload.CachedPositive | smart-transfer-server/src/main/java/com/server/smarttransferserver/service/impl/FileDownloadServiceImpl.java:196-247 | a cached number is used only when present and positive after trimming and parsing |
| FileDownload.ChunkSpan | smart-transfer-server/src/main/java/com/server/smarttransferserver/service/impl/FileDownloadServiceImpl.java:268-270 | the span starts at 0 or later and ends at the last byte or earlier, with length end-start+1; explicit bounds are clamped into [0, size-1] |
| FileDownload.DownloadChunk | smart-transfer-server/src/main/java/com/server/smarttransferserver/service/impl/FileDownloadServiceImpl.java:160-295 | a file without a PENDING, PROCESSING or PAUSED DOWNLOAD task is refused first (400), then a task without a congestion-control algorithm (500), then a file missing from the table or the disk; a served chunk has an open download task, a size drift of at most 1024 bytes, a chunk number inside [0, totalChunks), the clamped span and a length of at least 0; a span of negative length is refused, as the buffer allocation at line 292 throws |
| FileDownload.ChunkInRange | smart-transfer-server/src/main/java/com/server/smarttransferserver/service/impl/FileDownloadServiceImpl.java:261-265 | a chunk number that passes the check starts inside the file |
| FileDownload.DefaultSpanBounds | smart-transfer-server/src/main/java/com/server/smarttransferserver/service/impl/FileDownloadServiceImpl.java:268-270 | without explicit bounds a valid chunk k starts at k*chunkSize and holds between 1 and chunkSize bytes |
| FileDownload.DefaultSpansTile | smart-transfer-server/src/main/java/com/server/smarttransferserver/service/impl/FileDownloadServiceImpl.java:261-270 | the default spans tile the file: chunk 0 starts at byte 0, each next chunk starts right after the previous one ends, and the last ends at the last byte |
| FileDownload.DownloadChunkChecks | smart-transfer-server/src/main/java/com/server/smarttransferserver/service/impl/FileDownloadServiceImpl.java:253-295 | a drift over 1024 bytes is always refused; within the tolerance, an invalid chunk number is refused as such, and a valid one is served exactly when its clamped span is not negative |
| FileDownload.CompletedDownloadRefused | smart-transfer-server/src/main/java/com/server/smarttransferserver/service/impl/FileDownloadServiceImpl.java:160-167 | a chunk request for a file whose download task has completed is refused for want of an open task, whatever the chunk |
| FileDownload.ShrunkFileLastChunkRefused | smart-transfer-server/src/main/java/com/server/smarttransferserver/service/impl/FileDownloadServiceImpl.java:253-295 | a file recorded 500 bytes over one chunk but 500 bytes under it on disk passes the drift check, yet its second chunk has a negative span and is refused |
| FileMerge.CountCompleted | smart-transfer-server/src/main/java/com/server/smarttransferserver/service/impl/FileMergeServiceImpl.java:115-117 | the completed count never exceeds the number of chunk records, and equals it exactly when every record is COMPLETED |
| FileMerge.RemoveFile | smart-transfer-server/src/main/java/com/server/smarttransferserver/service/impl/FileMergeServiceImpl.java:310 | the file's rows are gone and every other row is kept |
| FileMerge.RemoveTasks | smart-transfer-server/src/main/java/com/server/smarttransferserver/service/impl/FileMergeServiceImpl.java:293-305 | the file's transfer tasks are gone and every other task is kept |
| FileMerge.Cleanup | smart-transfer-server/src/main/java/com/server/smarttransferserver/service/impl/FileMergeServiceImpl.java:277-316 | the failed upload's file row, chunk records and tasks are deleted, and every other file row and chunk record stays |
| FileMerge.MergeFile | smart-transfer-server/src/main/java/com/server/smarttransferserver/service/impl/FileMergeServiceImpl.java:70-167 | a missing file fails and a COMPLETED one succeeds, both without changes; too few COMPLETED chunks fail without changes and report the counts; a digest mismatch cleans the upload up; a merge happens only on a matching digest, making the file COMPLETED |
| FileMerge.MergeFileComplete | smart-transfer-server/src/main/java/com/server/smarttransferserver/service/impl/FileMergeServiceImpl.java:128-167 | an existing, unfinished file with every chunk COMPLETED is merged exactly when the digest matches, under its own name unless another file of that name shares the folder, changing only its own row; a mismatch cleans it up |
| FileMerge.MergeFileWaitsForChunks | smart-transfer-server/src/main/java/com/server/smarttransferserver/service/impl/FileMergeServiceImpl.java:111-127 | with a chunk not yet COMPLETED the merge reports completed/total and changes nothing |
| FileMerge.CancelUpload | smart-transfer-server/src/main/java/com/server/smarttransferserver/service/impl/FileMergeServiceImpl.java:234-269 | cancelling reports false exactly for a COMPLETED file, which stays; a missing file reports true unchanged; any other file is cleaned up |
| FileMerge.CancelTwice | smart-transfer-server/src/main/java/com/server/smarttransferserver/service/impl/FileMergeServiceImpl.java:251-264 | after a successful cancel a second cancel finds nothing and reports success |
| FileUpload.NewChunkRecords | smart-transfer-server/src/main/java/com/server/smarttransferserver/service/impl/FileUploadServiceImpl.java:184-193 | a new upload gets one chunk record per chunk, numbered 0..totalChunks-1 in order, all PENDING, and none for a non-positive count |
| FileUpload.UploadExtendName | smart-transfer-server/src/main/java/com/server/smarttransferserver/service/impl/FileUploadServiceImpl.java:617-626 | the upload service's extension never contains a dot |
| FileUpload.UploadExtendNameAgrees | smart-transfer-server/src/main/java/com/server/smarttransferserver/service/impl/FileUploadServiceImpl.java:617-626 | the upload service's extension is the file service's one, with "" where that one is null |
| FileUpload.InitUpload | smart-transfer-server/src/main/java/com/server/smarttransferserver/service/impl/FileUploadServiceImpl.java:101-200 | an instant upload (skipUpload and quickUpload) happens exactly for a hash already COMPLETED; a hash still UPLOADING resumes with the cached chunk numbers, or the database's COMPLETED ones when the cache is empty; anything else creates an UPLOADING file in the given folder (null as 0) with PENDING chunk records 0..totalChunks-1 |
| FileUpload.CalculateRtt | smart-transfer-server/src/main/java/com/server/smarttransferserver/service/impl/FileUploadServiceImpl.java:363-377 | a positive client RTT is used clamped to [1, 60000] ms, unchanged inside that range; a missing or non-positive one gives the server's processing time |
| FileUpload.RetryLosses | smart-transfer-server/src/main/java/com/server/smarttransferserver/service/impl/FileUploadServiceImpl.java:340-357 | a retry count r reports exactly min(r, 10) losses of the chunk's size, and none for a null or non-positive count or without an algorithm |
| FileUpload.RetryLossesKeepRenoSound | smart-transfer-server/src/main/java/com/server/smarttransferserver/service/impl/FileUploadServiceImpl.java:349-351 | feeding those losses to Reno keeps its invariant, and after at least one the window is at least the minimum |
| Folders.SubFolderWalk | smart-transfer-server/src/main/java/com/server/smarttransferserver/service/impl/FolderServiceImpl.java:327-338 | a true answer means some chain of one or more parent steps from the start reaches the given parent; a false answer means no such chain reaches it |
| Folders.IsSubFolder | smart-transfer-server/src/main/java/com/server/smarttransferserver/service/impl/FolderServiceImpl.java:323-339 | false for a null or zero child; otherwise true exactly when the parent is a proper ancestor of the child along stored parent links |
| Folders.UpFromNowhere | smart-transfer-server/src/main/java/com/server/smarttransferserver/service/impl/FolderServiceImpl.java:327-331 | from an id that is not positive or not a folder, no parent step leads anywhere |
| Folders.GetBreadcrumb | smart-transfer-server/src/main/java/com/server/smarttransferserver/service/impl/FolderServiceImpl.java:237-257 | empty for a null or zero id; otherwise root first and ending at the folder, every element a folder whose parent is the element before it, the first one's parent being no folder |
| Folders.ChainUp | smart-transfer-server/src/main/java/com/server/smarttransferserver/service/impl/FolderServiceImpl.java:245-253 | the i-th id collected is the folder reached after i parent steps, and the walk stops exactly where the next id is not a folder |
| Folders.ChainLinks | smart-transfer-server/src/main/java/com/server/smarttransferserver/service/impl/FolderServiceImpl.java:245-256 | consecutive collected folders are child and parent, so reversing them yields a root-first path |
| Folders.ChildPathOf | smart-transfer-server/src/main/java/com/server/smarttransferserver/service/impl/FolderServiceImpl.java:62-68 | a child's stored path is its parent's path, name and a slash when the parent is a positive existing folder, and "/" otherwise |
| Folders.CreateFolder | smart-transfer-server/src/main/java/com/server/smarttransferserver/service/impl/FolderServiceImpl.java:46-82 | an anonymous caller is rejected; a duplicate is reported exactly when the owner already has a same-named folder under the same parent; on success only the new id is added, with a null parent stored as 0 |
| Folders.CreateFolderKeepsPaths | smart-transfer-server/src/main/java/com/server/smarttransferserver/service/impl/FolderServiceImpl.java:62-76 | creating a folder keeps every stored path equal to the one its parent determines |
| Folders.NullParentSkipsSiblingTest | smart-transfer-server/src/main/java/com/server/smarttransferserver/service/impl/FolderServiceImpl.java:53-59 | with a null parent the sibling query matches no row, so the same name can be created twice at the root |
| Folders.RenameFolder | smart-transfer-server/src/main/java/com/server/smarttransferserver/service/impl/FolderServiceImpl.java:197-215 | a missing folder is rejected; a duplicate is reported exactly when another folder under the same parent has the new name; on success only that folder's name changes |
| Folders.RenameLeafKeepsPaths | smart-transfer-server/src/main/java/com/server/smarttransferserver/service/impl/FolderServiceImpl.java:212-214 | renaming a folder without subfolders keeps every stored path consistent |
| Folders.RenameLeavesChildPathStale | smart-transfer-server/src/main/java/com/server/smarttransferserver/service/impl/FolderServiceImpl.java:212-214 | renaming a folder with a subfolder leaves that subfolder's stored path naming the old folder name |
| Folders.MoveFolderTo | smart-transfer-server/src/main/java/com/server/smarttransferserver/service/impl/FolderServiceImpl.java:273-301 | moving onto itself and moving a missing folder are rejected; a success means the target was not inside the folder's subtree, and only the folder's parent (null as 0) and path change |
| Folders.MovedFolderNotOwnAncestor | smart-transfer-server/src/main/java/com/server/smarttransferserver/service/impl/FolderServiceImpl.java:283-288 | after a successful move the folder is not its own proper ancestor |
| Folders.MoveFolderKeepsAcyclic | smart-transfer-server/src/main/java/com/server/smarttransferserver/service/impl/FolderServiceImpl.java:273-301 | a successful move of an acyclic folder table leaves it acyclic |
| Folders.BuildChildren | smart-transfer-server/src/main/java/com/server/smarttransferserver/service/impl/FolderServiceImpl.java:365-389 | one node per row whose parent is the given id, each carrying that row's id and name and the path its parent's path determines |
| Folders.GetFolderTree | smart-transfer-server/src/main/java/com/server/smarttransferserver/service/impl/FolderServiceImpl.java:342-360 | the root is node 0 with path "/", one child per top-level folder, each child's path being "/" and its name |
| Folders.TypeConditionAgrees | smart-transfer-server/src/main/java/com/server/smarttransferserver/service/impl/FolderServiceImpl.java:103-150 | for codes 1 to 5 and a normalised stored extension, the file query's type condition agrees with the type matcher |
| Folders.NullExtensionListedNowhere | smart-transfer-server/src/main/java/com/server/smarttransferserver/service/impl/FolderServiceImpl.java:137-150 | a file without an extension is "other" to the type matcher yet satisfies no type filter, "other" included |
| UserService.Register | smart-transfer-server/src/main/java/com/server/smarttransferserver/service/impl/UserServiceImpl.java:137-163 | a mismatched confirmation is refused; a taken user name is refused exactly when another user already has it; otherwise one enabled USER account is added, its nickname defaulting to the user name |
| UserService.RegisterKeepsNamesUnique | smart-transfer-server/src/main/java/com/server/smarttransferserver/service/impl/UserServiceImpl.java:143-158 | registering keeps user names unique and never creates an admin |
| UserService.ChangePassword | smart-transfer-server/src/main/java/com/server/smarttransferserver/service/impl/UserServiceImpl.java:186-221 | an anonymous caller is refused; a change happens only for an existing user with both passwords given, a new one of 6 to 20 characters hashing differently from the stored hash, and a correct old password, and it replaces only that user's hash |
| UserService.ChangePasswordCheckOrder | smart-transfer-server/src/main/java/com/server/smarttransferserver/service/impl/UserServiceImpl.java:205-215 | the unchanged-password test wins over the old-password test, a correct old and a fresh new password go through, a wrong old password with a fresh new one is reported as wrong, and reusing the old password never succeeds |
| UserService.UpdateUserStatusAsWritten | smart-transfer-server/src/main/java/com/server/smarttransferserver/service/impl/UserServiceImpl.java:349-374 | a missing status is refused, and a status for a missing user is refused as user-not-found; the last-admin refusal comes exactly when the user is an admin, the status is 0 and no other enabled admin exists; a success changes only that user's status |
| UserService.AsWrittenLocksOutLastAdmin | smart-transfer-server/src/main/java/com/server/smarttransferserver/service/impl/UserServiceImpl.java:359-369 | the only enabled admin set to status 2 passes the guard and leaves no enabled admin |
| UserService.UpdateUserStatus | smart-transfer-server/src/main/java/com/server/smarttransferserver/service/impl/UserServiceImpl.java:349-374 | a missing status or user is refused; the last-admin refusal comes exactly when the user is an admin, the status is not 1 and no other enabled admin exists; a success changes only that user's status |
| UserService.UpdateUserStatusKeepsEnabledAdmin | smart-transfer-server/src/main/java/com/server/smarttransferserver/service/impl/UserServiceImpl.java:359-369 | a status change that succeeds leaves some enabled admin whenever there was one |
| UserService.DeleteUser | smart-transfer-server/src/main/java/com/server/smarttransferserver/service/impl/UserServiceImpl.java:377-389 | a missing user is refused, an admin is refused exactly when the user is an admin, and a success removes only that user |
| UserService.DeleteUserKeepsAdmins | smart-transfer-server/src/main/java/com/server/smarttransferserver/service/impl/UserServiceImpl.java:383-386 | no successful deletion removes or changes an admin |
| UserService.Distinct | smart-transfer-server/src/main/java/com/server/smarttransferserver/service/impl/UserServiceImpl.java:713 | the de-duplicated list holds exactly the same ids, each once, and is no longer than the input |
| UserService.CheckBatch | smart-transfer-server/src/main/java/com/server/smarttransferserver/service/impl/UserServiceImpl.java:716-727 | the checking pass succeeds exactly when every non-null id names an existing non-admin, and otherwise fails with not-found or admin |
| UserService.BatchUpdateUserStatus | smart-transfer-server/src/main/java/com/server/smarttransferserver/service/impl/UserServiceImpl.java:707-733 | an empty list is refused and any admin in the list makes the batch fail |
| UserService.StatusStepsAgreeOffAdmins | smart-transfer-server/src/main/java/com/server/smarttransferserver/service/impl/UserServiceImpl.java:714-731 | for a user who is not an admin, or a missing user, the as-written and the corrected status step give the same result, so the batch loop after the admin check may use either |
| UserService.BatchUpdateOutcome | smart-transfer-server/src/main/java/com/server/smarttransferserver/service/impl/UserServiceImpl.java:707-733 | a batch of present ids succeeds exactly when each names an existing non-admin, and then sets the status of exactly those users |
| UserService.BatchDeleteUsers | smart-transfer-server/src/main/java/com/server/smarttransferserver/service/impl/UserServiceImpl.java:740-766 | an empty list is refused and any admin in the list makes the batch fail |
| UserService.BatchDeleteOutcome | smart-transfer-server/src/main/java/com/server/smarttransferserver/service/impl/UserServiceImpl.java:740-766 | present ids naming existing non-admins, repeats included, are all deleted and nothing else is |
| UserService.RepeatWithoutDistinctFails | smart-transfer-server/src/main/java/com/server/smarttransferserver/service/impl/UserServiceImpl.java:745-746 | without the de-duplication a repeated id would make the second deletion fail; with it the batch succeeds |
| UserService.IsValidPhone | smart-transfer-server/src/main/java/com/server/smarttransferserver/service/impl/UserServiceImpl.java:324-331 | valid exactly for eleven ASCII digits starting with 1 and then 3 to 9; null and empty are invalid |
| UserService.IsValidEmail | smart-transfer-server/src/main/java/com/server/smarttransferserver/service/impl/UserServiceImpl.java:312-319 | valid exactly when some cut at an at-sign and a later dot splits the address into a non-empty local part, a non-empty domain and two or more letters |
| UserService.EmailCutIsForced | smart-transfer-server/src/main/java/com/server/smarttransferserver/service/impl/UserServiceImpl.java:317 | the address pattern matches exactly when the cut at the last at-sign and the last dot fits |
| UserService.CategoryAsWritten | smart-transfer-server/src/main/java/com/server/smarttransferserver/service/impl/UserServiceImpl.java:538-552 | a null extension is other; otherwise the category is the first of image, video, audio and document whose list text contains the lower-cased extension anywhere, and other when none does |
| UserService.AsWrittenEmptyIsImage | smart-transfer-server/src/main/java/com/server/smarttransferserver/service/impl/UserServiceImpl.java:538-540 | the empty extension counts as an image under the substring test |
| UserService.AsWrittenPgIsImage | smart-transfer-server/src/main/java/com/server/smarttransferserver/service/impl/UserServiceImpl.java:538-540 | the fragment "pg" counts as an image under the substring test |
| UserService.AsWrittenMpIsImage | smart-transfer-server/src/main/java/com/server/smarttransferserver/service/impl/UserServiceImpl.java:538-548 | the fragment "mp" counts as an image rather than video or audio under the substring tests |
| UserService.CategoryOfRejectsFragments | smart-transfer-server/src/main/java/com/server/smarttransferserver/service/impl/UserServiceImpl.java:538-552 | with the lists read as whole names, the empty extension, "pg" and "mp" are other |
| UserService.ListedImagesAreImages | smart-transfer-server/src/main/java/com/server/smarttransferserver/service/impl/UserServiceImpl.java:538-540 | each listed image name is an image |
| UserService.ListedVideosAreVideos | smart-transfer-server/src/main/java/com/server/smarttransferserver/service/impl/UserServiceImpl.java:542-544 | each listed video name is a video |
| UserService.ListedAudioIsAudio | smart-transfer-server/src/main/java/com/server/smarttransferserver/service/impl/UserServiceImpl.java:546-548 | each listed audio name is audio |
| UserService.ListedDocumentsAreDocuments | smart-transfer-server/src/main/java/com/server/smarttransferserver/service/impl/UserServiceImpl.java:550-552 | each listed document name is a document |
| UserService.Tally | smart-transfer-server/src/main/java/com/server/smarttransferserver/service/impl/UserServiceImpl.java:422-449 | for any category test, the file count is the number of files, and the total size and count are split exactly among the five categories |
| UserService.TallyByCategory | smart-transfer-server/src/main/java/com/server/smarttransferserver/service/impl/UserServiceImpl.java:422-449 | for any category test, each category bucket of the one-pass tally equals that category's own size sum and count, and the total is the sum of all sizes |
| UserService.Select | smart-transfer-server/src/main/java/com/server/smarttransferserver/service/impl/UserServiceImpl.java:400-405 | the rows read are exactly the live, non-directory files, restricted to the user when one is given |
| UserService.GetStorageStats | smart-transfer-server/src/main/java/com/server/smarttransferserver/service/impl/UserServiceImpl.java:392-465 | an anonymous caller is refused; otherwise the statistics are the tally of that user's live files under the as-written category test |
| UserService.GetStorageStatsCorrected | smart-transfer-server/src/main/java/com/server/smarttransferserver/service/impl/UserServiceImpl.java:392-465 | the same statistics under the whole-name category test; the total size is the same as the as-written one, only the split among categories moves |
| UserService.GetSystemStorageStats | smart-transfer-server/src/main/java/com/server/smarttransferserver/service/impl/UserServiceImpl.java:468-536 | the statistics are the tally of all live non-directory files under the as-written category test, every such file being counted |
| UserService.GetSystemStorageStatsCorrected | smart-transfer-server/src/main/java/com/server/smarttransferserver/service/impl/UserServiceImpl.java:468-536 | the same statistics under the whole-name category test, with the same total size |
| UserService.AsWrittenStatsCountFragmentAsImage | smart-transfer-server/src/main/java/com/server/smarttransferserver/service/impl/UserServiceImpl.java:538-552 | one live 10-byte file with extension "pg" is tallied as an image by the system statistics as written, and as other by the corrected ones |
| UserService.CategoryOf | smart-transfer-server/src/main/java/com/server/smarttransferserver/service/impl/UserServiceImpl.java:426-449 | with the lists read as lists of whole names, an extension is an image exactly when it is a listed image name, and other exactly when it is in none of the four lists or missing |
| TransferTasks.CountActive | smart-transfer-server/src/main/java/com/server/smarttransferserver/service/impl/TransferTaskServiceImpl.java:229-233 | the count of a user's active tasks never exceeds the number of rows |
| TransferTasks.CountActiveZero | smart-transfer-server/src/main/java/com/server/smarttransferserver/service/impl/TransferTaskServiceImpl.java:229-233 | the count is zero exactly when no row is a PENDING or PROCESSING task on a file of that user |
| TransferTasks.IndexOf | smart-transfer-server/src/main/java/com/server/smarttransferserver/service/impl/TransferTaskServiceImpl.java:109 | the lookup by task id finds the first row with that id, and finds nothing exactly when no row has it |
| TransferTasks.CreateTask | smart-transfer-server/src/main/java/com/server/smarttransferserver/service/impl/TransferTaskServiceImpl.java:58-82 | one PENDING row with progress 0, the file's owner and the start time is appended; the owner, when the file has one, joins the active set |
| TransferTasks.CreateTaskKeepsCovered | smart-transfer-server/src/main/java/com/server/smarttransferserver/service/impl/TransferTaskServiceImpl.java:64-79 | the new task is found by its id and every active task's owner is still in the active set |
| TransferTasks.WithStatus | smart-transfer-server/src/main/java/com/server/smarttransferserver/service/impl/TransferTaskServiceImpl.java:111-115 | the row takes the status, COMPLETED and FAILED stamp the end time, and nothing else in the row changes |
| TransferTasks.UpdateTaskStatus | smart-transfer-server/src/main/java/com/server/smarttransferserver/service/impl/TransferTaskServiceImpl.java:108-142 | false and no change for an unknown id; otherwise only that row changes, it takes the status and the end-time rule, and only its owner's membership of the active set may change |
| TransferTasks.CountActiveUpdate | smart-transfer-server/src/main/java/com/server/smarttransferserver/service/impl/TransferTaskServiceImpl.java:116-127 | changing one row moves each user's active count by exactly that row's contribution |
| TransferTasks.UpdateTaskStatusKeepsCovered | smart-transfer-server/src/main/java/com/server/smarttransferserver/service/impl/TransferTaskServiceImpl.java:118-137 | every status change keeps the owner of each active task in the active set |
| TransferTasks.ActivatingAddsOwner | smart-transfer-server/src/main/java/com/server/smarttransferserver/service/impl/TransferTaskServiceImpl.java:131-137 | moving a task into PENDING or PROCESSING puts its owner in the active set |
| TransferTasks.DeactivatingLastTaskDropsOwner | smart-transfer-server/src/main/java/com/server/smarttransferserver/service/impl/TransferTaskServiceImpl.java:118-130 | ending an active task (COMPLETED, FAILED or PAUSED) keeps the owner in the active set exactly when they were in it and had another active task |
| TransferTasks.DeleteTask | smart-transfer-server/src/main/java/com/server/smarttransferserver/service/impl/TransferTaskServiceImpl.java:308-337 | false and no change for an unknown id; otherwise exactly that row goes and at most its owner leaves the active set |
| TransferTasks.DeleteTaskKeepsCovered | smart-transfer-server/src/main/java/com/server/smarttransferserver/service/impl/TransferTaskServiceImpl.java:322-332 | deleting a task keeps every remaining active task's owner in the active set |
| TransferTasks.Incomplete | smart-transfer-server/src/main/java/com/server/smarttransferserver/service/impl/TransferTaskServiceImpl.java:348-350 | exactly the user's not-yet-completed tasks of the type, none added |
| TransferTasks.ListIncomplete | smart-transfer-server/src/main/java/com/server/smarttransferserver/service/impl/TransferTaskServiceImpl.java:340-356 | empty without a logged-in user or for a type other than UPLOAD or DOWNLOAD in any case; otherwise exactly the user's incomplete tasks of that type |
| TransferTasks.PauseEach | smart-transfer-server/src/main/java/com/server/smarttransferserver/service/impl/TransferTaskServiceImpl.java:368-381 | the pause count never exceeds the number of listed active tasks and no row is added or removed |
| TransferTasks.PauseEachFrame | smart-transfer-server/src/main/java/com/server/smarttransferserver/service/impl/TransferTaskServiceImpl.java:368-381 | when every listed task has a row, each listed active task is counted and a row either stays the same or becomes PAUSED |
| TransferTasks.PauseEachPauses | smart-transfer-server/src/main/java/com/server/smarttransferserver/service/impl/TransferTaskServiceImpl.java:368-381 | when every listed task has a row, the row of every listed active task ends PAUSED |
| TransferTasks.PauseEachKeepsCovered | smart-transfer-server/src/main/java/com/server/smarttransferserver/service/impl/TransferTaskServiceImpl.java:368-381 | the pause loop keeps every active task's owner in the active set |
| TransferTasks.PauseAll | smart-transfer-server/src/main/java/com/server/smarttransferserver/service/impl/TransferTaskServiceImpl.java:360-364 | 0 and no change without a logged-in user |
| TransferTasks.PauseAllOutcome | smart-transfer-server/src/main/java/com/server/smarttransferserver/service/impl/TransferTaskServiceImpl.java:360-384 | every PENDING or PROCESSING upload or download task of the user ends PAUSED, the count is the number of those tasks, any changed row is PAUSED, and the active set still covers the active tasks |
| Dashboard.Count | smart-transfer-server/src/main/java/com/server/smarttransferserver/service/impl/DashboardServiceImpl.java:130-160 | a count of users meeting a criterion never exceeds the list length |
| Dashboard.CountPartitions | smart-transfer-server/src/main/java/com/server/smarttransferserver/service/impl/DashboardServiceImpl.java:132-143 | every user is counted exactly once, as meeting the criterion or as not |
| Dashboard.CountZero | smart-transfer-server/src/main/java/com/server/smarttransferserver/service/impl/DashboardServiceImpl.java:130-160 | a criterion's count is zero exactly when no user meets it |
| Dashboard.GetUserStats | smart-transfer-server/src/main/java/com/server/smarttransferserver/service/impl/DashboardServiceImpl.java:117-173 | admins and ordinary users, and enabled and disabled users, each split the total; each figure is the number of users meeting its criterion, a null role being ordinary and a null status disabled |
| Dashboard.LastOrZero | smart-transfer-server/src/main/java/com/server/smarttransferserver/service/impl/DashboardServiceImpl.java:92-97 | 0 for a null or empty series, else the newest bucket |
| Dashboard.TodayTransfer | smart-transfer-server/src/main/java/com/server/smarttransferserver/service/impl/DashboardServiceImpl.java:91-97 | 0 when both series are null or empty |
| Dashboard.TodayTransferReadsOnlyToday | smart-transfer-server/src/main/java/com/server/smarttransferserver/service/impl/DashboardServiceImpl.java:91-97 | earlier days never change the figure, x more bytes today in either series raise it by exactly x, and a null series contributes nothing |
| Dashboard.StatOrZero | smart-transfer-server/src/main/java/com/server/smarttransferserver/service/impl/DashboardServiceImpl.java:82-83 | a statistics figure is the stored value, or 0 when the key is absent |
| Dashboard.GetKpiData | smart-transfer-server/src/main/java/com/server/smarttransferserver/service/impl/DashboardServiceImpl.java:75-112 | the user count is the list length and the storage figures are the statistics' totalSize and fileCount, 0 when absent |
| Dashboard.DashboardTotalsAgree | smart-transfer-server/src/main/java/com/server/smarttransferserver/service/impl/DashboardServiceImpl.java:75-173 | the KPI user count equals the statistics' total, the roles partition it, and active and new users never exceed it |
| RecycleBin.FindFile | smart-transfer-server/src/main/java/com/server/smarttransferserver/service/impl/RecoveryFileServiceImpl.java:77 | selectById sees only live rows: a file found by id is a live row with that id, and none is found exactly when every row with that id is already deleted |
| RecycleBin.FlagFile | smart-transfer-server/src/main/java/com/server/smarttransferserver/service/impl/RecoveryFileServiceImpl.java:105-109 | exactly the live rows of the file get delFlag 1, keeping their batch number; every other row is unchanged |
| RecycleBin.DeleteFileToRecovery | smart-transfer-server/src/main/java/com/server/smarttransferserver/service/impl/RecoveryFileServiceImpl.java:76-113 | a missing or already deleted file changes nothing; otherwise one record owned by the file's owner is appended, the file's live rows get delFlag 1 and nothing else changes |
| RecycleBin.BatchDeleteToRecovery | smart-transfer-server/src/main/java/com/server/smarttransferserver/service/impl/RecoveryFileServiceImpl.java:117-157 | the old records are kept, at most one record per listed id is appended, all under the one batch number, and exactly the live rows of the listed files are marked with it |
| RecycleBin.BatchDeleteOne | smart-transfer-server/src/main/java/com/server/smarttransferserver/service/impl/RecoveryFileServiceImpl.java:123-153 | a live file gets one new record and its live rows are marked under the batch; a missing or already deleted id changes nothing |
| RecycleBin.BatchRepeatAddsOneRecord | smart-transfer-server/src/main/java/com/server/smarttransferserver/service/impl/RecoveryFileServiceImpl.java:117-157 | a file listed twice in one batch delete gets one record: the second lookup no longer sees it |
| RecycleBin.MarkFilesIn | smart-transfer-server/src/main/java/com/server/smarttransferserver/service/impl/RecoveryFileServiceImpl.java:216-231 | exactly the live files of the folder, of the owner when one is given, are marked under the batch |
| RecycleBin.ChildIds | smart-transfer-server/src/main/java/com/server/smarttransferserver/service/impl/RecoveryFileServiceImpl.java:234-240 | every live subfolder of the folder, of the owner when one is given, is listed |
| RecycleBin.MarkFolder | smart-transfer-server/src/main/java/com/server/smarttransferserver/service/impl/RecoveryFileServiceImpl.java:206-244 | the walk only marks folder rows, keeps the tables' sizes, and leaves the folder itself marked |
| RecycleBin.MarkFolderMarks | smart-transfer-server/src/main/java/com/server/smarttransferserver/service/impl/RecoveryFileServiceImpl.java:206-244 | every change the walk makes is a marking under the batch, and with unique folder ids it touches no already-deleted row except the folder's own |
| RecycleBin.MarkFolderCloses | smart-transfer-server/src/main/java/com/server/smarttransferserver/service/impl/RecoveryFileServiceImpl.java:206-244 | after the walk the folder and every folder it marked have no live subfolder or live file of the owner left |
| RecycleBin.DeleteFolderToRecovery | smart-transfer-server/src/main/java/com/server/smarttransferserver/service/impl/RecoveryFileServiceImpl.java:164-201 | a missing or already deleted folder changes nothing; otherwise one folder record without a file id is appended and the rest of the change is a marking of live rows under the batch |
| RecycleBin.DeleteFolderClosesSubtree | smart-transfer-server/src/main/java/com/server/smarttransferserver/service/impl/RecoveryFileServiceImpl.java:180-244 | after a folder delete the folder and every folder of the batch are closed: the whole owned subtree is in the bin |
| RecycleBin.RestoreFile | smart-transfer-server/src/main/java/com/server/smarttransferserver/service/impl/RecoveryFileServiceImpl.java:247-296 | restore as intended: a missing record changes nothing; otherwise the record goes, a folder record brings back every file and folder of its batch and any other record its file, with delFlag 0 and no batch |
| RecycleBin.RestoreFileAsWritten | smart-transfer-server/src/main/java/com/server/smarttransferserver/service/impl/RecoveryFileServiceImpl.java:247-296 | restore as written: the record goes, but its updates see only live rows, so every row keeps its delFlag and every deleted row is unchanged |
| RecycleBin.AsWrittenRestoreLeavesFileDeleted | smart-transfer-server/src/main/java/com/server/smarttransferserver/service/impl/RecoveryFileServiceImpl.java:260-267 | a file deleted to recovery stays deleted after its record is restored as written, with no record left to reach it, while the intended restore gives back the bin |
| RecycleBin.DeleteFileThenRestore | smart-transfer-server/src/main/java/com/server/smarttransferserver/service/impl/RecoveryFileServiceImpl.java:247-271 | with the intended restore and unique file ids, deleting a file to recovery and restoring its record gives back the bin as it was |
| RecycleBin.DeleteFolderThenRestore | smart-transfer-server/src/main/java/com/server/smarttransferserver/service/impl/RecoveryFileServiceImpl.java:164-296 | with the intended restore, deleting a folder under a fresh batch and restoring its record gives back the bin as it was |
| RecycleBin.PurgeBatch | smart-transfer-server/src/main/java/com/server/smarttransferserver/service/impl/RecoveryFileServiceImpl.java:369-398 | the native batch delete removes exactly the files of the batch and their transfer tasks; the framework delete of the folders only sets delFlag 1 on live folder rows of the batch, so every folder row stays; the records stay |
| RecycleBin.PurgeBatchKeepsFolderRows | smart-transfer-server/src/main/java/com/server/smarttransferserver/service/impl/RecoveryFileServiceImpl.java:393-397 | purging a batch leaves its already deleted folder row in the table |
| RecycleBin.PurgeFile | smart-transfer-server/src/main/java/com/server/smarttransferserver/service/impl/RecoveryFileServiceImpl.java:349-358 | exactly the file's rows and its transfer tasks are removed |
| RecycleBin.PurgeRecord | smart-transfer-server/src/main/java/com/server/smarttransferserver/service/impl/RecoveryFileServiceImpl.java:309-360 | a file record is skipped exactly when its file has a PENDING or PROCESSING download, and a record not skipped leaves none of its rows |
| RecycleBin.DeleteFilePermanently | smart-transfer-server/src/main/java/com/server/smarttransferserver/service/impl/RecoveryFileServiceImpl.java:302-364 | a missing record changes nothing; the call fails exactly for a file record whose file has an active download; otherwise the record and its rows are gone |
| RecycleBin.PurgeAll | smart-transfer-server/src/main/java/com/server/smarttransferserver/service/impl/RecoveryFileServiceImpl.java:446-497 | every record is either reported skipped, being a file record whose file has an active download, or leaves none of its rows; no file row or task is added |
| RecycleBin.ClearAsWritten | smart-transfer-server/src/main/java/com/server/smarttransferserver/service/impl/RecoveryFileServiceImpl.java:430-501 | the records left are exactly those not selected, skipped ones included in the removal; no file row is added, and every selected record either has an active download or leaves no file row behind |
| RecycleBin.AsWrittenClearOrphansFile | smart-transfer-server/src/main/java/com/server/smarttransferserver/service/impl/RecoveryFileServiceImpl.java:453-499 | a soft-deleted file whose download is running survives the clear while its record is removed, so no record reaches it |
| RecycleBin.Clear | smart-transfer-server/src/main/java/com/server/smarttransferserver/service/impl/RecoveryFileServiceImpl.java:430-501 | no record is added and every unselected record stays; no file row is added, and every selected record either has an active download or leaves no file row behind |
| RecycleBin.ClearKeepsReachable | smart-transfer-server/src/main/java/com/server/smarttransferserver/service/impl/RecoveryFileServiceImpl.java:430-501 | with skipped records kept, every remaining soft-deleted file is still reachable from a record |
| RecycleBin.ClearKeepsSkippedRecord | smart-transfer-server/src/main/java/com/server/smarttransferserver/service/impl/RecoveryFileServiceImpl.java:453-464 | the corrected clear keeps both a file with a running download and its record |
| RecycleBin.DeleteFileKeepsReachable | smart-transfer-server/src/main/java/com/server/smarttransferserver/service/impl/RecoveryFileServiceImpl.java:76-113 | deleting a file to recovery keeps every soft-deleted file reachable from a record |
| RecycleBin.DeleteFolderKeepsReachable | smart-transfer-server/src/main/java/com/server/smarttransferserver/service/impl/RecoveryFileServiceImpl.java:164-244 | deleting a folder to recovery keeps every soft-deleted file reachable, the new ones through the folder's record |
| RecycleBin.RestoreKeepsReachable | smart-transfer-server/src/main/java/com/server/smarttransferserver/service/impl/RecoveryFileServiceImpl.java:248-298 | restoring a record keeps every soft-deleted file reachable, given unique record ids |
| RecycleBin.DeletePermanentlyKeepsReachable | smart-transfer-server/src/main/java/com/server/smarttransferserver/service/impl/RecoveryFileServiceImpl.java:302-364 | a permanent delete that goes through keeps every remaining soft-deleted file reachable |
| FileStore.AddToQueue | smart-transfer-web/src/store/fileStore.js:63-74 | one item is appended and nothing else changes; a missing or zero id becomes the fresh id, missing status, progress and speed take pending and 0, and both times are cleared |
| FileStore.Find | smart-transfer-web/src/store/fileStore.js:98 | the lookup finds the first item with the id, and finds nothing exactly when no item has it |
| FileStore.WithoutIdMembers | smart-transfer-web/src/store/fileStore.js:108 | the filter keeps exactly the items whose id differs |
| FileStore.WithoutIdCount | smart-transfer-web/src/store/fileStore.js:108 | with distinct ids, filtering out an id present removes exactly one item and otherwise none |
| FileStore.SetUploadStatus | smart-transfer-web/src/store/fileStore.js:97-111 | an unknown id changes nothing; another status changes only that item's status and starts its clock on the first uploading; completed or failed stamps the end time, puts the item at the front of the history and removes the id from the queue |
| FileStore.StartTimeSetOnce | smart-transfer-web/src/store/fileStore.js:101-103 | entering uploading a second time, at any later time, changes nothing: the first start time stays |
| FileStore.FinishMovesOneItem | smart-transfer-web/src/store/fileStore.js:104-109 | with distinct ids, finishing an upload moves it: queue plus history keep their total size, the id leaves the queue and every other item stays |
| FileStore.RemoveFromQueue | smart-transfer-web/src/store/fileStore.js:113-115 | no item with the id remains and the histories are unchanged |
| FileStore.RemoveFromQueueIdempotent | smart-transfer-web/src/store/fileStore.js:113-115 | removing an id twice is removing it once, and every item with another id stays |
| FileStore.ClearHistory | smart-transfer-web/src/store/fileStore.js:117-120 | both histories are empty and the queue is unchanged |
| TransferStore.Apply | smart-transfer-web/src/store/transferStore.js:78 | the id, name, size and hash are never touched, and the status is the patch's when it carries one and the old one otherwise |
| TransferStore.Find | smart-transfer-web/src/store/transferStore.js:76 | the lookup finds the first position holding the id, and -1 exactly when no task has it |
| TransferStore.AddTask | smart-transfer-web/src/store/transferStore.js:51-70 | the queue grows by exactly the new task, which is pending with zero progress, speed and transferred size and no times, under the requested id or the fresh one when that is missing or zero |
| TransferStore.AddUploadTask | smart-transfer-web/src/store/transferStore.js:51-70 | the new upload task has no file id and no hash yet |
| TransferStore.AddDownloadTask | smart-transfer-web/src/store/transferStore.js:128-145 | the new download task is pending and a missing file size counts as 0 |
| TransferStore.UpdateTask | smart-transfer-web/src/store/transferStore.js:75-80 | an unknown id changes nothing; otherwise the first task with the id becomes that task with the patch applied, and no other task changes |
| TransferStore.UpdateTaskIdempotent | smart-transfer-web/src/store/transferStore.js:75-80 | the empty patch changes nothing and applying the same patch twice is applying it once |
| TransferStore.RemoveTask | smart-transfer-web/src/store/transferStore.js:85-90 | an unknown id changes nothing; otherwise exactly the first task with the id is spliced out |
| TransferStore.RemoveUndoesAdd | smart-transfer-web/src/store/transferStore.js:51-90 | adding a task under an id the queue does not hold and removing that id gives back the queue |
| TransferStore.AvgSpeed | smart-transfer-web/src/store/transferStore.js:114 | for a positive duration the average speed is the floor of size over duration; otherwise 0 |
| TransferStore.CompleteTask | smart-transfer-web/src/store/transferStore.js:95-123 | an unknown id changes nothing and posts nothing; otherwise only that task changes, to completed at 100 percent with speed 0 and the end time now, and the posted entry carries the transfer type, the whole seconds elapsed and the average speed |
| TransferStore.ClearCompletedMembers | smart-transfer-web/src/store/transferStore.js:202-211 | the clear keeps exactly the tasks that are not completed |
| TransferStore.ClearCompletedAppend | smart-transfer-web/src/store/transferStore.js:202-211 | clearing a concatenation is concatenating the clears, so order is kept |
| TransferStore.CompleteThenClear | smart-transfer-web/src/store/transferStore.js:95-211 | completing a task then clearing leaves the same queue as removing that task then clearing |
| TransferStore.ClearCompletedIdempotent | smart-transfer-web/src/store/transferStore.js:202-211 | clearing twice is clearing once |
| TransferStore.PauseAllUploads | smart-transfer-web/src/store/transferStore.js:216-223 | every uploading or hashing task becomes the same task paused with speed 0, a task in any other state is unchanged, and ids and order are kept |
| TransferStore.PauseAllDownloads | smart-transfer-web/src/store/transferStore.js:228-235 | every downloading task becomes the same task paused with speed 0, a task in any other state is unchanged, and ids and order are kept |
| TransferStore.CountActiveUploads | smart-transfer-web/src/store/transferStore.js:16-20 | the number of uploads in flight never exceeds the queue length |
| TransferStore.CountActiveDownloads | smart-transfer-web/src/store/transferStore.js:23-27 | the number of downloads in flight never exceeds the queue length |
| TransferStore.TotalTransferCount | smart-transfer-web/src/store/transferStore.js:30-32 | the badge never exceeds the number of queued tasks |
| TransferStore.SpeedOfAbsent | smart-transfer-web/src/store/transferStore.js:35-46 | with no task in the status, the speed total is 0 |
| TransferStore.PauseAllStopsSpeed | smart-transfer-web/src/store/transferStore.js:35-46 | after pausing everything the total upload and download speeds are 0 |
| TransferStore.PauseAllLeavesPending | smart-transfer-web/src/store/transferStore.js:216-223 | after pausing all uploads exactly the pending ones still count toward the badge |
| TransferStore.ClearKeepsBadge | smart-transfer-web/src/store/transferStore.js:202-211 | clearing completed tasks never changes the badge counts |
| WebFileUtil.ChunkCount | smart-transfer-web/src/utils/file.js:17-24 | the number of chunks is the ceiling of size over chunk size: the last chunk starts inside the file and ends at or past its end; an empty file has none |
| WebFileUtil.CreateFileChunks | smart-transfer-web/src/utils/file.js:13-27 | chunk i starts at i times the chunk size and ends at the smaller of the next boundary and the file size, is non-empty and at most one chunk size long, the chunks are contiguous from 0 to the file size, and their sizes add up to the file size |
| WebFileUtil.ChunksTile | smart-transfer-web/src/utils/file.js:17-24 | chunks cut at the chunk-size boundaries up to the ceiling count tile the file in order |
| WebFileUtil.ChunkCountUnique | smart-transfer-web/src/utils/file.js:17-24 | only the ceiling satisfies the chunk-count bounds, so the loop's count is that ceiling |
| WebFileUtil.FloorDiv | smart-transfer-web/src/utils/file.js:147 | for a positive divisor the result is the floor of the quotient |
| WebFileUtil.FormatProgress | smart-transfer-web/src/utils/file.js:145-148 | 0 for a total of 0; for a positive total the floor of current over total times 100 |
| WebFileUtil.FormatProgressBounds | smart-transfer-web/src/utils/file.js:145-148 | for work between none and all of a positive total the percentage lies in 0 to 100, and is 100 exactly when the work is done |
| WebFileUtil.FormatProgressMonotone | smart-transfer-web/src/utils/file.js:145-148 | more work done never shows less progress |
| WebFileUtil.GetFileExtension | smart-transfer-web/src/utils/file.js:155-158 | the extension holds no dot, is empty for a name without a dot, and is shorter than the name |
| WebFileUtil.GetFileExtensionOfSuffix | smart-transfer-web/src/utils/file.js:155-158 | a name ending in a dot and a dot-free suffix has the lower-cased suffix as its extension, whatever precedes it |
| WebFileUtil.GetFileIconType | smart-transfer-web/src/utils/file.js:165-182 | a category other than the fallback lists the extension, and the fallback comes exactly when no list holds it |
| WebFileUtil.IconListsDisjoint | smart-transfer-web/src/utils/file.js:167-172 | no extension is in two icon lists |
| WebFileUtil.IconOfListed | smart-transfer-web/src/utils/file.js:174-179 | an extension of a list is shown with that list's icon |
| WebFileUtil.IconTypeExact | smart-transfer-web/src/utils/file.js:165-182 | a file gets an icon category exactly when its extension is in that category's list |
| WebFileUtil.SplitSecondsRecompose | smart-transfer-web/src/utils/file.js:126-128 | for a non-negative duration the hours, minutes and seconds recompose it, with minutes and seconds below 60 |
| WebFileUtil.FileFormatDuration | smart-transfer-web/src/utils/file.js:125-137 | hours, minutes and seconds from an hour on, minutes and seconds from a minute on, seconds alone below that |
| WebFileUtil.FormatDuration | smart-transfer-web/src/utils/format.js:72-86 | "-" for a missing, zero or negative duration, then seconds, minutes and seconds, or hours, minutes and seconds by magnitude |
| WebFileUtil.FormatDurationUnitsRecompose | smart-transfer-web/src/utils/format.js:77-84 | the units printed recompose the duration, minutes and seconds below 60, and below an hour the minutes stay below 60 |
| WebFileUtil.FormatSpeed | smart-transfer-web/src/utils/format.js:62-65 | always ends in "/s"; "0 B/s" for a missing or non-positive speed, otherwise formatFileSize of the speed, so the unit before "/s" is the one SizeUnit picks |
| WebFileUtil.SizeUnit | smart-transfer-web/src/utils/format.js:10-16 | the unit is the largest power of 1024 not above the size, from bytes up to GB, and GB for every size from 1 GiB on |
| WebFileUtil.FormatFileSize | smart-transfer-web/src/utils/format.js:10-16 | "-" exactly for a missing size; otherwise the text ends with the unit SizeUnit picks; below 1 KiB the digits before " B" read back as the size; from 1 KiB on the two-decimal number comes before the unit |
| WebFileType.GetFileType | smart-transfer-web/src/utils/fileType.js:23-35 | a missing or empty extension is other; any other category is one whose list holds the lower-cased extension |
| WebFileType.GetFileTypeOther | smart-transfer-web/src/utils/fileType.js:23-35 | the fallback is given exactly to extensions that no category lists |
| WebFileType.UnlistedIsOther | smart-transfer-web/src/utils/fileType.js:28-34 | when the table scan finds nothing, no list holds the extension |
| WebFileType.EmptyListedNowhere | smart-transfer-web/src/utils/fileType.js:6-16 | no category lists the empty extension |
| WebFileType.GetFileTypeExact | smart-transfer-web/src/utils/fileType.js:23-35 | an extension in any letter case gets a category exactly when that category lists it |
| WebFileType.TypeOfListed | smart-transfer-web/src/utils/fileType.js:28-32 | a listed extension is classified by its own list: the first-match scan never stops earlier |
| WebFileType.VideoNotEarlier | smart-transfer-web/src/utils/fileType.js:7-8 | no video extension is an image extension |
| WebFileType.AudioNotEarlier | smart-transfer-web/src/utils/fileType.js:7-9 | no audio extension is in an earlier list |
| WebFileType.DocumentNotEarlier | smart-transfer-web/src/utils/fileType.js:7-10 | no document extension is in an earlier list |
| WebFileType.SpreadsheetNotEarlier | smart-transfer-web/src/utils/fileType.js:7-11 | no spreadsheet extension is in an earlier list |
| WebFileType.PresentationNotEarlier | smart-transfer-web/src/utils/fileType.js:7-12 | no presentation extension is in an earlier list |
| WebFileType.ArchiveNotEarlier | smart-transfer-web/src/utils/fileType.js:7-13 | no archive extension is in an earlier list |
| WebFileType.CodeNotEarlier | smart-transfer-web/src/utils/fileType.js:7-14 | no code extension is in an earlier list |
| WebFileType.CodeNotImage | smart-transfer-web/src/utils/fileType.js:7-14 | no code extension is an image extension |
| WebFileType.CodeNotVideo | smart-transfer-web/src/utils/fileType.js:8-14 | no code extension is a video extension |
| WebFileType.CodeNotAudio | smart-transfer-web/src/utils/fileType.js:9-14 | no code extension is an audio extension |
| WebFileType.CodeNotDocument | smart-transfer-web/src/utils/fileType.js:10-14 | no code extension is a document extension |
| WebFileType.CodeNotOffice | smart-transfer-web/src/utils/fileType.js:11-14 | no code extension is a spreadsheet, presentation or archive extension |
| WebFileType.ExecutableNotEarlier | smart-transfer-web/src/utils/fileType.js:7-15 | no executable extension is in an earlier list |
| WebFileType.ExecutableNotCode | smart-transfer-web/src/utils/fileType.js:14-15 | no executable extension is a code extension |
| WebFileType.GetFileIconByType | smart-transfer-web/src/utils/fileType.js:42-66 | pdf, txt, md and doc or docx get their own icons in any letter case; every other extension gets its category's icon |
| WebFileType.IconOverridesAreDocumentsOrCode | smart-transfer-web/src/utils/fileType.js:59-63 | the special icons replace only a document icon, or the code icon for md |
| WebFileType.CanPreviewFile | smart-transfer-web/src/utils/fileType.js:73-88 | previewable exactly when the category is image, video or audio, or the extension is pdf or in the text list |
| WebFileType.CanPreviewExact | smart-transfer-web/src/utils/fileType.js:73-88 | previewable exactly when the lower-cased extension is a media extension, pdf, or a text extension |
| WebFileType.IsImageFile | smart-transfer-web/src/utils/fileType.js:95-97 | true exactly for the image extensions, in any letter case |
| WebFileType.IsVideoFile | smart-transfer-web/src/utils/fileType.js:104-106 | true exactly for the video extensions, in any letter case |
| WebFileType.IsAudioFile | smart-transfer-web/src/utils/fileType.js:113-115 | true exactly for the audio extensions, in any letter case |
| WebFileType.MediaTestsExclusive | smart-transfer-web/src/utils/fileType.js:95-115 | no extension passes two of the image, video and audio tests |
| WebFileType.GetFileTypeName | smart-transfer-web/src/utils/fileType.js:122-139 | the name is never empty, and an extension no list holds is named "其他" |
| WebFileType.TypeNameInjective | smart-transfer-web/src/utils/fileType.js:125-136 | no two categories share a display name |
| ThesisText.CleanText | WpsFormatThesis/GXWGY_FormatThesis_WPS_v1.js:205-216 | the result holds no control character and no white space at either end, and is never longer than the input |
| ThesisText.CleanTextIsTrimmedFilter | WpsFormatThesis/GXWGY_FormatThesis_WPS_v1.js:208-215 | the result is one slice of the text with its control characters removed, and only white space lies outside that slice |
| ThesisText.CleanTextOfClean | WpsFormatThesis/GXWGY_FormatThesis_WPS_v1.js:205-216 | text already free of control characters and outer white space comes back unchanged |
| ThesisText.CleanTextIdempotent | WpsFormatThesis/GXWGY_FormatThesis_WPS_v1.js:205-216 | cleaning twice gives the same as cleaning once |
| ThesisText.EndsWithPunctuationLastOnly | WpsFormatThesis/GXWGY_FormatThesis_WPS_v1.js:260-264 | the punctuation test looks only at the last character: a text extended by one character ends with punctuation exactly when that character is one of the twelve marks, text in front of a non-empty text changes nothing, and the empty text never does |
| ThesisText.FullText | WpsFormatThesis/GXWGY_FormatThesis_WPS_v1.js:266-274 | the full text is clean, equals the cleaned text when there is no list number, and always ends with the cleaned text |
| ThesisText.CleanFullText | WpsFormatThesis/GXWGY_FormatThesis_WPS_v1.js:266-274 | cleaning a paragraph's full text again changes nothing |
| ThesisText.TocLineNeedsTabOrStyle | WpsFormatThesis/GXWGY_FormatThesis_WPS_v1.js:217-239 | a line without a tab is a table-of-contents line exactly when its style name says so |
| ThesisText.TabAndPageNumberIsToc | WpsFormatThesis/GXWGY_FormatThesis_WPS_v1.js:219-221 | a tabbed line ending in a digit or Roman numeral, then only line breaks, is a table-of-contents line whatever its style |
| HeadingFormat.FirstMatch | WpsFormatThesis/GXWGY_FormatThesis_WPS_v1.js:493-531 | any format found comes at or after the starting position and matches, and no pattern between the start and it matches |
| HeadingFormat.DetectHeadingFormat | WpsFormatThesis/GXWGY_FormatThesis_WPS_v1.js:491-532 | a result has a level from 1 to 4 fixed by its format, its pattern matches, and no earlier pattern does; there is no result exactly when no pattern matches |
| HeadingFormat.DetectIs | WpsFormatThesis/GXWGY_FormatThesis_WPS_v1.js:491-532 | a pattern that matches with no earlier one matching is the one chosen |
| HeadingFormat.RunNotFollowedByDotMeansLookahead | WpsFormatThesis/GXWGY_FormatThesis_WPS_v1.js:502-503 | the negative lookahead after a digit run, with the engine free to give back digits, fails only on a one-digit run followed by a dot |
| HeadingFormat.FourPartIsLevelFour | WpsFormatThesis/GXWGY_FormatThesis_WPS_v1.js:501 | a four-part section number is always a level-4 heading |
| HeadingFormat.TrailingDotAfterThreeParts | WpsFormatThesis/GXWGY_FormatThesis_WPS_v1.js:502-503 | "1.2.3." with one-digit second and third parts passes neither the level-3 nor the level-2 test |
| HeadingFormat.ArabQuantifierNone | WpsFormatThesis/GXWGY_FormatThesis_WPS_v1.js:517-519 | digits, spaces and a measure word such as 个 or 年 are no heading of any kind |
| HeadingFormat.ArabQuantifierIsNotHeading | WpsFormatThesis/GXWGY_FormatThesis_WPS_v1.js:517-519 | the same, for the text built from digits, spaces, a measure word and anything after |
| HeadingFormat.CnQuantifierNone | WpsFormatThesis/GXWGY_FormatThesis_WPS_v1.js:508-510 | a Chinese numeral, spaces and a measure word such as 个 or 种 are no heading of any kind |
| HeadingFormat.CnQuantifierIsNotHeading | WpsFormatThesis/GXWGY_FormatThesis_WPS_v1.js:508-510 | the same, for the text built from numerals, spaces, a measure word and anything after |
| HeadingFormat.AllRulesFail | WpsFormatThesis/GXWGY_FormatThesis_WPS_v1.js:491-532 | when no pattern matches there is no heading |
| HeadingFormat.BaiFenLingJiRedundant | WpsFormatThesis/GXWGY_FormatThesis_WPS_v1.js:508-510 | the 百分 and 零基 exclusions only reject texts the measure-word exclusion already rejects |
| HeadingFormat.ArabSpaceDotExclusionRedundant | WpsFormatThesis/GXWGY_FormatThesis_WPS_v1.js:517-519 | the two-part-number exclusion of the numeral-space rule never fires on a text of that rule's shape |
| HeadingFormat.ArabSpaceChapter | WpsFormatThesis/GXWGY_FormatThesis_WPS_v1.js:517-519 | digits, spaces and a Han character other than a measure word form a level-1 numeral-space heading |
| HeadingFormat.ArabSpaceWins | WpsFormatThesis/GXWGY_FormatThesis_WPS_v1.js:517-519 | every text of the numeral-space shape without a measure word is a level-1 numeral-space heading |
| HeadingFormat.ZhangCnChapter | WpsFormatThesis/GXWGY_FormatThesis_WPS_v1.js:493 | 第, Chinese numerals and 章 always form a level-1 chapter heading of the Chinese-numeral kind |
| HeadingFormat.ChapterFormatsAreLevelOne | WpsFormatThesis/GXWGY_FormatThesis_WPS_v1.js:554-559 | the formats isChapter1Title lists are exactly the level-1 formats |
| HeadingFormat.Chapter1TitleIsLevelOne | WpsFormatThesis/GXWGY_FormatThesis_WPS_v1.js:554-559 | a detected heading is a chapter-1 title exactly when its level is 1 |
| HeadingFormat.DetectThesisType | WpsFormatThesis/GXWGY_FormatThesis_WPS_v1.js:543-552 | type 1-or-3 exactly for a chapter heading with 第 and 章, type 2 exactly for numeral-comma, type 1 exactly for numeral-space |
| ThesisDetector.FirstIndex | WpsFormatThesis/GXWGY_FormatThesis_WPS_v1.js:418-423 | the index found lies in the window and the document and satisfies the test, and no earlier paragraph of the window does; -1 means none in the window does |
| ThesisDetector.FindIntegrityDeclaration | WpsFormatThesis/GXWGY_FormatThesis_WPS_v1.js:418-424 | the first of the first 100 paragraphs whose cleaned text opens with 诚信声明, or -1 when none of them does |
| ThesisDetector.FindAbstractTitle | WpsFormatThesis/GXWGY_FormatThesis_WPS_v1.js:425-431 | the first of the first 100 paragraphs reading 摘要 or 摘  要, or -1 when none does |
| ThesisDetector.FindKeywords | WpsFormatThesis/GXWGY_FormatThesis_WPS_v1.js:432-438 | the first of the 30 paragraphs after the start opening with 关键词, or -1 when none does |
| ThesisDetector.FindAbstractEn | WpsFormatThesis/GXWGY_FormatThesis_WPS_v1.js:467-473 | the first of the 60 paragraphs after the start reading ABSTRACT in any letter case, or -1 when none does |
| ThesisDetector.FindKeywordsEn | WpsFormatThesis/GXWGY_FormatThesis_WPS_v1.js:474-481 | -1 without an English abstract; otherwise the first of the 20 paragraphs after it opening with key words, in any letter case and spacing |
| ThesisDetector.FindTocTitle | WpsFormatThesis/GXWGY_FormatThesis_WPS_v1.js:482-488 | the first of the 80 paragraphs after the start reading 目录 or 目  录, or -1 when none does |
| ThesisDetector.LastLongEnough | WpsFormatThesis/GXWGY_FormatThesis_WPS_v1.js:444-447 | the nearest paragraph at or above the given one and below the stop with at least 5 characters; every paragraph skipped on the way is shorter |
| ThesisDetector.TitleAboveAbstract | WpsFormatThesis/GXWGY_FormatThesis_WPS_v1.js:442-456 | a title found lies between the start and ABSTRACT, looks like an English title, and only paragraphs shorter than 5 characters lie between it and ABSTRACT |
| ThesisDetector.FallbackEnglishTitle | WpsFormatThesis/GXWGY_FormatThesis_WPS_v1.js:458-464 | the first of the 50 paragraphs after the start that looks like an English title and is neither the ABSTRACT nor the keywords line, or -1 |
| ThesisDetector.FindEnglishTitle | WpsFormatThesis/GXWGY_FormatThesis_WPS_v1.js:439-466 | a title found comes after the start, inside the document, and opens with a capital, holds no Han character and is over 15 characters long |
| ThesisDetector.FindFirstChapter | WpsFormatThesis/GXWGY_FormatThesis_WPS_v1.js:560-591 | the first paragraph after the start that is no table-of-contents line, is at most 50 characters, does not end in punctuation and is a chapter-1 title, or -1 when none is |
| ThesisDetector.LevelOneHeading | WpsFormatThesis/GXWGY_FormatThesis_WPS_v1.js:608-620 | a paragraph that passes the filters of findAllChapters is a level-1 heading, not a table-of-contents line, and at most 50 characters long |
| ThesisDetector.ScanChapters | WpsFormatThesis/GXWGY_FormatThesis_WPS_v1.js:622-673 | once a first format is known, every chapter kept is compatible with it and every chapter skipped is not |
| ThesisDetector.FindAllChapters | WpsFormatThesis/GXWGY_FormatThesis_WPS_v1.js:592-683 | every chapter returned is a filtered level-1 heading of the range, with its format and first 30 characters, and every later chapter is compatible with the first |
| ThesisDetector.CandidatesAreChapters | WpsFormatThesis/GXWGY_FormatThesis_WPS_v1.js:608-620 | every filtered level-1 heading of the range is recorded with its own index, format and first 30 characters |
| ThesisDetector.ScanWithFirst | WpsFormatThesis/GXWGY_FormatThesis_WPS_v1.js:630-673 | given a first format, the scan keeps exactly the compatible filtered headings and skips exactly the others, in order |
| ThesisDetector.ScanMatchesReference | WpsFormatThesis/GXWGY_FormatThesis_WPS_v1.js:592-683 | the chapter list is the first filtered level-1 heading followed by exactly the later ones compatible with it, and the skipped list is the rest |
| ThesisDetector.KeepCompatibleSound | WpsFormatThesis/GXWGY_FormatThesis_WPS_v1.js:639-667 | every chapter kept after the first is compatible with it and comes from the candidates |
| ThesisDetector.CompatibleIsSameFamily | WpsFormatThesis/GXWGY_FormatThesis_WPS_v1.js:639-662 | for a first format other than stand-alone, a later level-1 format is accepted exactly when it is stand-alone or of the same family |
| ThesisDetector.FindReferenceTitle | WpsFormatThesis/GXWGY_FormatThesis_WPS_v1.js:684-696 | the first paragraph from the later of the start and the 70 per cent mark that reads 参考文献 and is no table-of-contents line, or -1 |
| ThesisDetector.FindAcknowledgement | WpsFormatThesis/GXWGY_FormatThesis_WPS_v1.js:697-709 | the first paragraph from the later of the start and the 70 per cent mark that reads 致谢 or 致  谢 and is no table-of-contents line, or -1 |
| ThesisDetector.ChapterEnd | WpsFormatThesis/GXWGY_FormatThesis_WPS_v1.js:724 | the chapter search ends at the reference title when there is one, else at the acknowledgement, else at the last paragraph |
| ThesisDetector.ChapterList | WpsFormatThesis/GXWGY_FormatThesis_WPS_v1.js:722-726 | no chapters without a first chapter; every chapter listed is a filtered level-1 heading between the first chapter and the end of the search |
| ThesisDetector.FindAll | WpsFormatThesis/GXWGY_FormatThesis_WPS_v1.js:710-731 | the integrity declaration and abstract title are always searched; without an abstract title every other position is -1 and the chapter list is empty; with one, each position is its own finder's answer searched from the abstract title (the English keywords from the English abstract, the reference and acknowledgement from the tail); every chapter lies between the first chapter and the end of the search |
| ThesisDetector.FirstChapterHeadsList | WpsFormatThesis/GXWGY_FormatThesis_WPS_v1.js:560-683 | the paragraph findFirstChapter reports heads the chapter list, unless it reads like "第一章为…" |
| ParagraphType.AfterTwoParts | WpsFormatThesis/GXWGY_FormatThesis_WPS_v1.js:758 | a position is found exactly when the text opens with a two-part section number |
| ParagraphType.KindOfText | WpsFormatThesis/GXWGY_FormatThesis_WPS_v1.js:740-789 | the text tests never give image, empty or table-of-contents; level 1 exactly when the punctuation guard passes and a level-1 rule matches; levels 2 to 4 never end in punctuation; captions are under 50 characters without clause punctuation |
| ParagraphType.KindOf | WpsFormatThesis/GXWGY_FormatThesis_WPS_v1.js:732-789 | image exactly for a paragraph with a picture, empty exactly for a picture-free empty paragraph, a table-of-contents kind only for a table-of-contents line |
| ParagraphType.DetectTypeAsWritten | WpsFormatThesis/GXWGY_FormatThesis_WPS_v1.js:732-789 | as written, a paragraph is a level-1 heading exactly when it has no picture, is not empty, is not a TOC line, has none of the title punctuation (the ASCII dot included) in its full text, and matches a level-1 rule |
| ParagraphType.DetectType | WpsFormatThesis/GXWGY_FormatThesis_WPS_v1.js:732-789 | with the numbering dot of "1.绪论" exempt, a paragraph is a level-1 heading exactly when it has no picture, is not empty, is not a TOC line, has no other title punctuation in its full text, and matches a level-1 rule |
| ParagraphType.Heading2AgreesWithCascade | WpsFormatThesis/GXWGY_FormatThesis_WPS_v1.js:758-764 | a text the level-2 test accepts is a level-2 two-part heading for detectHeadingFormat as well |
| ParagraphType.Heading3AgreesWithCascade | WpsFormatThesis/GXWGY_FormatThesis_WPS_v1.js:767-769 | a text the level-3 test accepts is a level-3 three-part heading for detectHeadingFormat as well |
| ParagraphType.Heading2InnerCheckRedundant | WpsFormatThesis/GXWGY_FormatThesis_WPS_v1.js:760-762 | the inner one-dot check always passes once the outer level-2 pattern has matched |
| ParagraphType.DotBlocksLevelOne | WpsFormatThesis/GXWGY_FormatThesis_WPS_v1.js:742 | any text holding an ASCII dot fails the level-1 punctuation guard |
| ParagraphType.NumberMarkDotIsDead | WpsFormatThesis/GXWGY_FormatThesis_WPS_v1.js:742-748 | inside the level-1 branch the dot alternative of the numbered-title rule can never match |
| ParagraphType.DottedTitleNotHeading1AsWritten | WpsFormatThesis/GXWGY_FormatThesis_WPS_v1.js:742-748 | as written, "1.绪论" is never a level-1 heading |
| ParagraphType.DottedTitleText | WpsFormatThesis/GXWGY_FormatThesis_WPS_v1.js:747-748 | "1.绪论" passes the corrected punctuation test and the numbered-title rule |
| ParagraphType.DottedTitleIsHeading1 | WpsFormatThesis/GXWGY_FormatThesis_WPS_v1.js:732-748 | corrected, "1.绪论" in a plain paragraph is a level-1 heading |
| ParagraphType.PunctTestsAgree | WpsFormatThesis/GXWGY_FormatThesis_WPS_v1.js:742 | when no dot follows a leading number, the two punctuation tests agree |
| ParagraphType.CorrectionOnlyAffectsDottedNumbers | WpsFormatThesis/GXWGY_FormatThesis_WPS_v1.js:732-789 | the correction changes the result only for texts that open with a number and a dot |
| Citations.ParseMagnitude | WpsFormatThesis/GXWGY_FormatThesis_WPS_v1.js:1948 | no number exactly when no digit follows, hexadecimal digits being the ones read after 0x or 0X |
| Citations.ParseIntOfDigits | WpsFormatThesis/GXWGY_FormatThesis_WPS_v1.js:1948-1952 | parseInt reads a plain decimal digit string back as its value |
| Citations.ParseIntOfNatToString | WpsFormatThesis/GXWGY_FormatThesis_WPS_v1.js:1948-1952 | parseInt reads a printed natural number back as that number |
| Citations.Interval | WpsFormatThesis/GXWGY_FormatThesis_WPS_v1.js:1948-1950 | the range loop pushes each integer from the first bound to the second, none when the first is larger |
| Citations.GroupsChars | WpsFormatThesis/GXWGY_FormatThesis_WPS_v1.js:1975 | a text the citation pattern accepts holds only digits and commas |
| Citations.FirstGroup | WpsFormatThesis/GXWGY_FormatThesis_WPS_v1.js:1975 | up to its first comma a citation content is one digit group, and a citation content follows the comma |
| Citations.LastGroup | WpsFormatThesis/GXWGY_FormatThesis_WPS_v1.js:1975 | a citation content without a comma is one digit group |
| Citations.CitationPieces | WpsFormatThesis/GXWGY_FormatThesis_WPS_v1.js:1975 | every comma-separated piece of a citation content is a non-empty digit string |
| Citations.ParsePartOfDigits | WpsFormatThesis/GXWGY_FormatThesis_WPS_v1.js:1945-1953 | a non-empty digit string is one number to the part parser |
| Citations.ParseRange | WpsFormatThesis/GXWGY_FormatThesis_WPS_v1.js:1946-1950 | a part "a-b" expands to every integer from a to b, none when a is larger |
| Citations.RangePart | WpsFormatThesis/GXWGY_FormatThesis_WPS_v1.js:1946-1950 | the same for any two digit groups joined by a dash |
| Citations.DashedRange | WpsFormatThesis/GXWGY_FormatThesis_WPS_v1.js:1945-1950 | the same after trimming, which leaves such a part unchanged |
| Citations.ParsePartsOfDigits | WpsFormatThesis/GXWGY_FormatThesis_WPS_v1.js:1943-1955 | a list of digit strings parses to their values, in order |
| Citations.CitationNumbers | WpsFormatThesis/GXWGY_FormatThesis_WPS_v1.js:1941-1956 | on the contents findAllCitations accepts, parseNumbers gives exactly the values of the comma-separated digit groups, in order |
| Citations.RenderParse | WpsFormatThesis/GXWGY_FormatThesis_WPS_v1.js:1941-1975 | a citation written from numbers passes the content pattern and parses back to those numbers |
| Citations.ScanMarkers | WpsFormatThesis/GXWGY_FormatThesis_WPS_v1.js:1967-1986 | every marker found holds citation content between a '[' and the first ']' after it, starts at or after the scan position, and the markers are in text order without overlap |
| Citations.NoBracketNoMarker | WpsFormatThesis/GXWGY_FormatThesis_WPS_v1.js:1969-1970 | without a '[' after the scan position there is no marker |
| Citations.MarkerFound | WpsFormatThesis/GXWGY_FormatThesis_WPS_v1.js:1967-1986 | when the first '[' of a text opens citation content closed by ']', the first marker is there |
| Citations.FirstMarker | WpsFormatThesis/GXWGY_FormatThesis_WPS_v1.js:1967-1986 | the first marker of a text written with a citation is found where it was written and parses to its numbers |
| Citations.ToCitations | WpsFormatThesis/GXWGY_FormatThesis_WPS_v1.js:1976-1983 | each bracket becomes a record of its paragraph, the paragraph's start, the bracket's start and the place after its ']', and the bracketed text |
| Citations.FindAllCitations | WpsFormatThesis/GXWGY_FormatThesis_WPS_v1.js:1958-1991 | every record found belongs to a paragraph of the range and records a citation marker of that paragraph |
| Citations.ParagraphCitations | WpsFormatThesis/GXWGY_FormatThesis_WPS_v1.js:1962-1989 | the records of one paragraph all belong to it and record its markers |
| Citations.CitationHasNumbers | WpsFormatThesis/GXWGY_FormatThesis_WPS_v1.js:1975-1982 | the numbers of every record found are the values of its digit groups: at least one, none missing, none negative |
| Citations.CitationContent | WpsFormatThesis/GXWGY_FormatThesis_WPS_v1.js:1975-1980 | the text between a record's brackets matches the citation pattern |
| Citations.ReferenceEntryNeedsBracket | WpsFormatThesis/GXWGY_FormatThesis_WPS_v1.js:1993-1999 | a text without '[' is never a reference entry |
| Citations.JournalIsReferenceEntry | WpsFormatThesis/GXWGY_FormatThesis_WPS_v1.js:1993-1999 | a line holding [J] is a reference entry |
| Citations.RefOffset | WpsFormatThesis/GXWGY_FormatThesis_WPS_v1.js:2097-2111 | the offset is one less than the position of the first item opening with '[', or 0 when none does |
| Citations.FirstOpening | WpsFormatThesis/GXWGY_FormatThesis_WPS_v1.js:2097-2111 | the first item from the given place opening with '[', or the end when none does |
| Citations.AllNumbersMembers | WpsFormatThesis/GXWGY_FormatThesis_WPS_v1.js:2352-2358 | a number is collected exactly when some citation cites it |
| Citations.InsertDescending | WpsFormatThesis/GXWGY_FormatThesis_WPS_v1.js:2359-2363 | inserting into a strictly descending list keeps it strictly descending and adds exactly the new number |
| Citations.DistinctDescending | WpsFormatThesis/GXWGY_FormatThesis_WPS_v1.js:2352-2363 | the numbers to process are every cited number once, largest first |
| Citations.KeepInRange | WpsFormatThesis/GXWGY_FormatThesis_WPS_v1.js:2368-2371 | exactly the numbers that fit the numbered-item list once shifted by the offset are kept, in the same order |
| Citations.ProcessOrder | WpsFormatThesis/GXWGY_FormatThesis_WPS_v1.js:2352-2371 | processAll replaces each cited number that fits the numbered-item list exactly once, from the largest down |
| PageBreaks.EnsureBreak | WpsFormatThesis/GXWGY_FormatThesis_WPS_v1.js:1163-1184 | only the target paragraph can change; afterwards an existing paragraph has a page break just before it or at its start; the document is unchanged exactly when the paragraph is missing or already has one, and otherwise a single page break is put at its start |
| PageBreaks.EnsureBreakIdempotent | WpsFormatThesis/GXWGY_FormatThesis_WPS_v1.js:1163-1184 | a second call on the same paragraph inserts nothing |
| PageBreaks.EnsureBreakAddsAtMostOne | WpsFormatThesis/GXWGY_FormatThesis_WPS_v1.js:1163-1184 | a call adds at most one page break to the document, and exactly one when it changes it |
| PageBreaks.EnsureBreakKeepsBreaks | WpsFormatThesis/GXWGY_FormatThesis_WPS_v1.js:1163-1184 | inserting in front of one paragraph keeps every break already in front of another |
| PageBreaks.EnsureBreaksPlacesAll | WpsFormatThesis/GXWGY_FormatThesis_WPS_v1.js:1211-1223 | after the back-to-front batch every listed paragraph that exists has a page break in front of it, and every break already in place stays |
| ContinuationTable.ScanRowPages | WpsFormatThesis/GXWGY_FormatThesis_WPS_v1.js:2562-2578 | the start page is the first known row page, the end page the last row's page, and the page changes are exactly the rows starting on a later page than a known previous one, in row order |
| ContinuationTable.NumberedPrefixEnd | WpsFormatThesis/GXWGY_FormatThesis_WPS_v1.js:2598 | a position found lies just past 表, optional white space and a digit run inside the text |
| ContinuationTable.CaptionOf | WpsFormatThesis/GXWGY_FormatThesis_WPS_v1.js:2596-2599 | a caption is kept exactly when the trimmed text without carriage returns is a numbered table caption; it then starts with 表 and is cut to at most 50 characters |
| ContinuationTable.FirstAtOrAfter | WpsFormatThesis/GXWGY_FormatThesis_WPS_v1.js:2591-2593 | the first paragraph starting at or after the table, or none when every paragraph starts before it |
| ContinuationTable.FindTableCaption | WpsFormatThesis/GXWGY_FormatThesis_WPS_v1.js:2587-2607 | a caption found is the caption of the paragraph just before the first paragraph at or after the table; there is none when that is the first paragraph or no paragraph starts at or after the table |
| ContinuationTable.ContinuationCaption | WpsFormatThesis/GXWGY_FormatThesis_WPS_v1.js:2630-2636 | always starts with 续表; a caption opening with 表 and a number becomes 续 followed by the caption, anything else gives 续表 |
| ContinuationTable.FoundCaptionContinues | WpsFormatThesis/GXWGY_FormatThesis_WPS_v1.js:2587-2636 | a caption found keeps its number in its first 50 characters unless over 48 spaces follow 表, so its continuation caption is 续 before the whole caption |
| ContinuationTable.DecideSplit | WpsFormatThesis/GXWGY_FormatThesis_WPS_v1.js:2644-2681 | the table is cut at the first page change exactly when that row is 3 or later and exists; a change at row 2 pushes the captioned table to the next page; no change means no split point |
| ContinuationTable.CleanCell | WpsFormatThesis/GXWGY_FormatThesis_WPS_v1.js:2691-2692 | a cleaned cell holds no end-of-cell mark, is never longer, and a cell without one is unchanged |
| ContinuationTable.SplitRows | WpsFormatThesis/GXWGY_FormatThesis_WPS_v1.js:2684-2718 | the original keeps the rows before the split row, at least two; the continuation table has the header row followed by every row from the split on |
| ContinuationTable.SplitKeepsRows | WpsFormatThesis/GXWGY_FormatThesis_WPS_v1.js:2684-2718 | without end-of-cell marks, the kept rows followed by the moved rows are the original table and the header is repeated unchanged |

## Left out

- Formatting in WPS is not modelled: fonts, paragraph formats, margins, sections, headers, page numbers, three-line tables, image resizing, the table of contents, quotes and code blocks. These are calls into the host with nothing to decide.
- BreakManager.ensureBreakAfter, hasSectionBreakBefore, the section-break repair of handleAll and the Cleaner's page-break clean-up are not modelled. They work on host ranges and section boundaries that have no counterpart in a text-only document. PageBreaks.EnsureBreaks models the part of handleAll that calls ensureBreak.
- CitationManager's bookmarks, field unlinking, find-and-replace, superscript formatting and reference numbering are not modelled, because they are host edits. The model keeps the scan, the parsing, the reference-entry test, the offset of the numbered items and the processing order.
- The table edits of splitCrossPageTable are not modelled: row deletion, inserting the caption and building the new table with its widths and formats. ContinuationTable.SplitRows gives the rows the edit keeps and the cell texts it saves for the new table.
- ContinuationTable.SplitRows: the saved header and moved rows are returned whole. Filling the new table writes only the first `colCount` cells of each saved row (GXWGY_FormatThesis_WPS_v1.js lines 2774 and 2781), so a row with more cells than the table has columns, after a merge or split, loses its extra cells there, and the model does not cut them.
- ThesisDetector.FindReferenceTitle: the start of the search, `Math.floor(Count * 0.7)`, is a floating-point expression. It is the parameter `tail`, also in FindAcknowledgement and FindAll.
- ThesisDetector.FindEnglishTitle: the contract states only where a title can lie and what it looks like. TitleAboveAbstract and FallbackEnglishTitle state which of the two methods picks it.
- The macro's logging, its debug-only branches and its report dialog are not modelled.
- Cubic, BBR and the adaptive algorithm are not modelled. They work in floating point. AdaptiveAlgorithmMetrics is modelled only for its switch history.
- PacketLoss: getLossRate returns a `double` and is not modelled; the counts it divides are.
- Reno.AvoidanceGrowth: the `(long)(double …)` increment of congestion avoidance is modelled as an exact truncated quotient. Rounding of operands above 2^53 is not modelled.
- RttMeasurement.GetAverageRtt: the average of the sample window is modelled as an exact truncating division of the sum.
- Java `long` and `int` overflow is not modelled, except where file_info.dfy makes a parse limit explicit. Sizes, windows and counters are unbounded integers.
- Long.parseLong also accepts non-ASCII Unicode digits. The range parser accepts only ASCII digits.
- FileDownload: `Math.ceil((double) size / chunkSize)` is modelled as an exact ceiling. It is exact while the quotient is representable as a double. The `int` cast of the chunk count is not modelled.
- FileDownload.DownloadChunk: reading the bytes and writing the HTTP response of downloadChunk are not modelled. Which open download task the lookup picks (the latest started) is not modelled, since it only selects the cached values, which are parameters. Whether the algorithm manager returns an algorithm is the parameter `algorithmFound`.
- SQL whose text is not in the repository is read as the plainest query. A duplicate-name query is an exact name match within one folder. The incomplete-task query is the status filter `TransferTasks.Incomplete`.
- Redis sets are sequences. The source does not depend on their order.
- Password hashing is the parameter `enc`, because only the equality of two hashes matters to the rules. Login, JWT tokens and avatars are not modelled.
- Java string lengths count UTF-16 code units and Dafny strings count characters. They differ only outside the Basic Multilingual Plane, which the length rules never meet.
- `selectById(null)` is a missing row.
- FileMerge: the transfer-task bookkeeping around the merge is not modelled, nor is the physical merge of chunk files. The digest verdict is a parameter.
- The server's getFileTypeName is not modelled; it only maps a type to a display name.
- FolderServiceImpl.deleteFolder is not modelled as a service of its own. The recycle bin's folder deletion is.
- getFoldersByParentId, the paging of getFolderContent, moveFileToFolder, countSubFolders and countFiles are not modelled. They are queries or field updates with no rule to check.
- Folders.IsSubFolder: where the source loops forever on a cycle of parents, the model returns `Diverges`. Folders.GetBreadcrumb does the same.
- RecycleBin: permanently deleting a folder record has no active-download guard in the source. The model keeps that as written.
- RecycleBin.MarkFolder: the marking walk skips children that are already marked. In the source it cannot meet one, and the model needs the skip to terminate.
- RecycleBin: batchRestoreFiles and batchDeleteFilesPermanently are not modelled. They loop over RestoreFile and DeleteFilePermanently and fail on an empty list. getRecoveryFileList is a query.
- RecycleBin: the cascade deletion of congestion metrics is not modelled, nor are times, storage paths and the files on disk.
- TransferTasks: the set of owners with active tasks is kept in one direction only. An owner with an active task is in the set. updateTaskProgress, queryTasks and the four-argument updateTaskStatus are not modelled.
- UserService: getUserInfo, updateUserInfo and getUserList are not modelled.
- ListIncomplete: Java's `equalsIgnoreCase` is modelled as equality after the ASCII-only `Text.Lower`. Java also folds a few non-ASCII letters, such as the dotless ı, the long ſ and the Kelvin sign, but none of them folds to a letter of UPLOAD or DOWNLOAD.
- Text.Lower and Text.Upper map the ASCII letters only. Java's `toLowerCase` and JavaScript's `toLowerCase` and `toUpperCase` follow Unicode, so a name holding, say, the Kelvin sign U+212A lower-cases to a plain `k` in the source and keeps the sign in the model. The members below inherit this. JavaScript regular expressions with the `i` flag and no `u` flag never match a non-ASCII character against an ASCII one, so the `/…/i` tests of the macro are exact.
- ExtractExtendName: lower-cases the extension in ASCII only, so "m\u212Av" stays as it is where Java gives "mkv".
- GetContentType: looks the extension up after ASCII-only lower-casing, so an extension that Java lower-cases to a listed one through a non-ASCII letter gets application/octet-stream.
- Normalize: FileTypeUtil lower-cases in ASCII only before trimming, and FileTypeUtil.GetFileType inherits this.
- GetFileType: both the server's FileTypeUtil.GetFileType and the client's WebFileType.GetFileType find the type only for extensions whose upper-case letters are ASCII.
- CategoryAsWritten: lower-cases the extension in ASCII only before the list tests.
- CategoryOf: lower-cases the extension in ASCII only before the whole-name tests.
- GetFileExtension: lower-cases the extension in ASCII only.
- UploadExtendName: lower-cases the extension in ASCII only.
- FindAbstractEn: the title test upper-cases in ASCII only, so a title spelled with a non-ASCII letter that JavaScript upper-cases to one of ABSTRACT is not found.
- Dashboard: the clock and the monthly cutoff are parameters.
- FileUpload: calculateFileHash is not modelled. It reads the file and digests it. shouldLogChunk is not modelled either: it only decides which chunks are logged.
- WebFileUtil.FormatProgress: JavaScript's floating-point division is modelled as exact rational arithmetic followed by a floor.
- WebFileUtil.FormatFileSize: the number that `toFixed(2)` prints for the scaled size is floating point and is the parameter `fixed`. The threshold cascade that picks the unit and the byte case are modelled. The logarithm-based formatFileSize of file.js is a different function and is not modelled.
- WebFileUtil.FileFormatDuration: durations are whole seconds. A fractional duration is not modelled.
- WebFileUtil.CreateFileChunks: with a chunk size of zero or less the loop of createFileChunks never ends, so the model requires a positive chunk size.
- TransferStore: ids are integers, and `lossRate` is stored as an integer. Object.assign with an id field is not part of `Patch`.
- TransferStore.CompleteTask: the history entry that `addHistory` would send is returned rather than sent.
- FileStore: the computed properties are not modelled. The localStorage settings, the selection, fileList, moveToCompleted, updateUploadProgress/Speed/Status and the download methods are not modelled either. They set fields with no rule to check.
- CongestionStore.UpdateMetrics: the source reads `Date.now()` twice in one update, and the model uses one time `now` for both.
- CongestionStore: setAlgorithm, startMonitoring and stopMonitoring only set fields or start a host timer, so they are not modelled.
- Websockets, the monitoring push, the mappers and the trivial getters and setters are not modelled.
- RecycleBin.PurgeBatch, RecycleBin.PurgeFile, RecycleBin.DeleteFilePermanently, RecycleBin.PurgeAll, RecycleBin.Clear and FileMerge.Cleanup: the model assumes that the native deletes remove rows of the file table and the transfer-task table. The native SQL names `file_info` (`mapper/FileInfoMapper.java` lines 57 and 67) and `t_transfer_task` (`mapper/TransferTaskMapper.java` lines 60 and 69), while the entities map to `t_file_info` (`entity/FileInfo.java` line 20) and `transfer_task` (`entity/TransferTask.java` line 21). The repository holds no schema, so whether these name the same tables cannot be decided from it. If they do not, these deletes fail or touch other tables, and the model does not cover that.
- Citations.ParseIntJs, Citations.DistinctDescending and Citations.ProcessOrder: numbers are unbounded integers. JavaScript numbers are doubles, so integers above 2^53 lose precision. processAll also keys its numbers by `String(n)` and parses them back (GXWGY_FormatThesis_WPS_v1.js lines 2352-2363), and from 1e21 up that string is in exponent form and reads back as a different number. Citation numbers that large are not modelled.

## Findings

| source | as written | input that shows it | evidently intended | confidence | as-written member | corrected member |
|---|---|---|---|---|---|---|
| WpsFormatThesis/GXWGY_FormatThesis_WPS_v1.js:742-748 | detectType's level-1 punctuation guard includes the ASCII dot, so the `1.绪论` alternative of the numbered-title rule can never match | a plain paragraph reading "1.绪论" is classified as body text | the dot that follows a leading chapter number is exempt, so "1.绪论" is a level-1 heading | not executed; high, since the comment on the rule names "1.绪论" | ParagraphType.DetectTypeAsWritten, ParagraphType.DottedTitleNotHeading1AsWritten | ParagraphType.DetectType, ParagraphType.DottedTitleIsHeading1 |
| smart-transfer-server/src/main/java/com/server/smarttransferserver/congestion/PacketLossDetector.java:95-108 | recordAck removes a sequence's duplicate count before it increments it, so the count is never above 1 and fast retransmit never fires | three duplicate ACKs of sequence 5 while 6 is in flight | the third duplicate ACK reports a loss | not executed; high | PacketLoss.RecordAckAsWritten, PacketLoss.AsWrittenMissesThirdDuplicate | PacketLoss.RecordAck, PacketLoss.ThirdDuplicateDetects |
| smart-transfer-server/src/main/java/com/server/smarttransferserver/service/impl/FileInfoServiceImpl.java:773-800 | the Range parser never checks that the end is at least the start | "bytes=5-3" on a 10-byte file gives a content length of -1 | an end before the start is unsatisfiable, as section 2.1 of RFC 7233 requires | not executed; high | FileInfoService.ParseRangeAsWritten, FileInfoService.AsWrittenAcceptsBackwardRange | FileInfoService.ParseRange, FileInfoService.ParseRangeRejectsBackward |
| smart-transfer-server/src/main/java/com/server/smarttransferserver/service/impl/UserServiceImpl.java:359-369 | the last-admin guard runs only when the new status is 0, so any other non-enabled status gets past it | the only enabled admin set to status 2 | no status change leaves the system without an enabled admin | not executed; medium | UserService.UpdateUserStatusAsWritten, UserService.AsWrittenLocksOutLastAdmin | UserService.UpdateUserStatus, UserService.UpdateUserStatusKeepsEnabledAdmin |
| smart-transfer-server/src/main/java/com/server/smarttransferserver/service/impl/UserServiceImpl.java:538-552 | the category tests use `String.contains` on a comma-separated list, so any fragment of a listed name matches | the extensions "", "pg" and "mp" are counted as images | an extension matches only a whole listed name | not executed; high | UserService.CategoryAsWritten, UserService.AsWrittenPgIsImage, UserService.GetSystemStorageStats, UserService.AsWrittenStatsCountFragmentAsImage | UserService.CategoryOf, UserService.CategoryOfRejectsFragments, UserService.GetSystemStorageStatsCorrected |
| smart-transfer-server/src/main/java/com/server/smarttransferserver/service/impl/RecoveryFileServiceImpl.java:453-499 | clearRecoveryBin skips deleting a file that has an active download, but still deletes every recovery record | a bin whose only record is for a soft-deleted file that is being downloaded | a skipped file keeps its record, so it can still be restored or purged | not executed; medium | RecycleBin.ClearAsWritten, RecycleBin.AsWrittenClearOrphansFile | RecycleBin.Clear, RecycleBin.ClearKeepsReachable |
| smart-transfer-server/src/main/java/com/server/smarttransferserver/service/impl/RecoveryFileServiceImpl.java:247-296 | restoreFile updates the file and folder rows through the framework, whose logical delete adds `del_flag = 0` to every update it builds, so the soft-deleted rows the record stands for are never updated | a live file deleted to recovery whose record is then restored stays deleted, with no record left that refers to it | restoring a record brings its rows back with delFlag 0 and no batch number | not executed; medium, since it rests on the framework's documented logical-delete behaviour, whose source is not part of this model | RecycleBin.RestoreFileAsWritten, RecycleBin.AsWrittenRestoreLeavesFileDeleted | RecycleBin.RestoreFile, RecycleBin.DeleteFileThenRestore |
