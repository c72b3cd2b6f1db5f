# Verified model of the CSI radar tools

This project models the stateful cores of the ESP CSI repository in Dafny and proves what their
step-by-step code amounts to. Six cores are covered.

- **Replay** (`Base64`, `ReplayWire`, `FieldSplit`, `DrainLoop`, `ReplayChunks`, `ReplayReceiver`,
  `ReplaySession`). The host turns recorded rows into comma-separated lines; the device receives
  them in arbitrary TCP chunks into a 1460-byte buffer, drains lines while more than 250 bytes are
  buffered, cuts frames into fields in place and decodes the samples. What is delivered depends
  only on the bytes received, not on the chunks, and whole replays arrive unchanged.
- **Movement detector with cloud reports** (`SlidingWindow`, `Presence`, `CloudReports`,
  `Calibration`, `RainmakerRadar`).
- **Console radar and labelled collection** (`ConsoleRadar`, `Collection`, `Segmentation`).
- **Host history** (`StatusHistory`).
- **Recognition and smoothing** (`Recogniser`, `Smoothing`).
- **Record queues** (`CaptureQueue`).

Code that updates state in place is modelled by classes and loops; each method is tied to a function
of the old state or to the history of its inputs, and the lemmas speak about all runs of those.

## Conventions and assumptions

- A byte of text is the character with that code. Floating-point numbers are `real`. Clocks and
  counters do not wrap, except where the model says so (the 32-bit collection counter, the 8-bit
  calibration timeout).
- A callback is one atomic step, except in `CaptureQueue`, where every queue and heap operation is
  a step of its own.
- The overlapping `memcpy` at `examples/esp-radar/console_test/main/radar_evaluate.c:215` is
  modelled as the move it is meant to be.
- A replayed stream contains no NUL bytes. The two other conditions under which the receive loop
  works are not assumed but characterised: `ReplayReceiver.Connection.Serve` says that the whole
  stream is received if and only if every line fits the buffer, and `ReplayChunks.StuckExactly`
  says that some chunking leaves the drain loop spinning if and only if some line, as far as
  reception gets, shows neither the marker nor its newline within 251 bytes. `Serve` requires
  exactly that no chunking does so, since the source's loop does not end otherwise.
- A frame with fewer than 28 fields or a timestamp of more than 31 bytes is undefined behaviour in C.
  The receiver's contracts mark it as `Undefined` and go on; `ReplaySession.Replay` promises only
  what comes before the first such frame.
- Base64 is section 4 of RFC 4648. The decoders of Python and of mbedTLS are libraries; on the texts
  that the encoder produces they agree with it.
- `s_report_someone_status` is never set, so the someone-has-left report of the RainMaker callback is
  unreachable; `CloudReports.RunMirrors` proves it.
- Any window size can be written and is stored; the radar callbacks require the stored one to be
  within the buffers (1 to 16 and 1 to 100, which are the bounds that the programs declare), since
  with any other they divide by zero or leave the buffer.
- The calibration flag loaded at boot is false. `Calibration.StoredFlagSticks` proves what happens
  otherwise.
- Opening a data file always creates a new one (file names carry the time in milliseconds).

## Findings

- `ReplayChunks.StuckExactly`: a line without an early marker can hang the receiver.
- `Base64.SignedRoundTrip`: values outside [-128, 127] do not survive the round trip; values that
  cannot be encoded at all are sent as the placeholder text and arrive as three samples.
- `ReplaySession.ExpectedOf`: rows whose line has at most 250 bytes are dropped silently; a row
  without samples loses its last field.
- `Calibration.TimeoutTruncated`: calibration timeouts of 256 s and more are truncated to eight bits
  although the interface offers values up to 3600 s.
- `Calibration.StoredFlagSticks`: the flag is stored while a calibration runs; a device that restarts
  then calibrates without a timer until the flag is written again.
- `SlidingWindow.WindowExactly` and `SlidingWindow.StaleSlots`: after a change of the window size old
  samples can still count. A decision speaks of the last samples, whatever they are, if and only if
  the slots in use hold the last samples' numbers, once each, which the times of the changes decide.
- `Recogniser.Machine.ToggleRecognition`: stopping a training with the recognition button leaves the
  train button disabled for good.
- `Collection.TwoCollections` and `Collection.BackToBackMerges`: two collections share a file if and
  only if their records meet in the same label and number.
- `ReplaySession.ReceivedRows`: a row whose line does not fit the buffer ends the replay there.
- `Recogniser.AlignedExactly`: template rows are compared with frames in their order if and only if
  there is one row; in the 3d tool, with five, the first trained row meets the newest frame.
- `StatusHistory.History.ResetEvaluation`: a reset keeps the rows of the movement list, as zeros.

## Model

| member | source | states |
|---|---|---|
| Base64.DecodeEncode | examples/esp-radar/console_test/tools/esp_csi_tool.py:139-165 | decoding undoes encoding for every byte list, in all three padding cases of RFC 4648 section 4 |
| Base64.EncodePlain | examples/esp-radar/console_test/tools/esp_csi_tool.py:162 | encoded text has four characters per started group of three bytes and never a comma, newline or NUL, so it is safe inside a replayed line |
| Base64.EncodeGroups | examples/esp-radar/console_test/tools/esp_csi_tool.py:162 | each group of four characters spells the same 24-bit number as its three bytes |
| Base64.DigitsAreTable | examples/esp-radar/console_test/tools/esp_csi_tool.py:162 | the alphabet is that of Table 1 in section 4 of RFC 4648 |
| Base64.EncodeLastGroup | examples/esp-radar/console_test/tools/esp_csi_tool.py:162 | a last group of one or two bytes is followed by zero bits and then by padding, as section 4 of RFC 4648 says |
| Base64.DecodesExactly | examples/esp-radar/console_test/tools/esp_csi_tool.py:141 | a text decodes if and only if it is whole groups of the alphabet, with at most two padding characters at the end |
| Base64.UnsignedIsModulo | examples/esp-radar/console_test/tools/esp_csi_tool.py:155-157 | samples are sent modulo 256, and read back exactly if they are 8-bit |
| Base64.SignedRoundTrip | examples/esp-radar/console_test/tools/esp_csi_tool.py:139-165 | the signed round trip is the identity on exactly the lists of 8-bit samples |
| Base64.PlaceholderDecodes | examples/esp-radar/console_test/tools/esp_csi_tool.py:160-165 | what a list that cannot be encoded turns into |
| Base64.EncodeBinInPlace | examples/esp-radar/console_test/tools/esp_csi_tool.py:154-165 | the list is rewritten in place to unsigned values and the text is its encoding, or the placeholder if a value is no byte |
| Base64.DecodeBinInPlace | examples/esp-radar/console_test/tools/esp_csi_tool.py:139-151 | the decoded bytes, rewritten in place to signed values; nothing for malformed text |
| ReplayWire.LinesPartition | examples/esp-radar/console_test/main/radar_evaluate.c:200-217 | cutting a stream into lines and a rest loses nothing |
| ReplayWire.LinesOfUnlines | examples/esp-radar/console_test/main/radar_evaluate.c:202-217 | consumed lines can be split off a stream without changing how the rest is cut |
| ReplayWire.ShortTextHasNoFrame | examples/esp-radar/console_test/main/radar_evaluate.c:200-211 | what the loop leaves unexamined, up to 250 bytes, never holds a frame |
| ReplayWire.MarkerInFirstLine | examples/esp-radar/console_test/main/radar_evaluate.c:201-211 | searching the whole buffer for the marker delivers the first line's frame, never one of a later line |
| ReplayWire.TokensOfJoin | examples/esp-radar/console_test/main/radar_evaluate.c:80-85 | splitting with `strtok` undoes joining with commas, except that an empty last field disappears |
| ReplayWire.TokensOfAnyJoin | examples/esp-radar/console_test/main/radar_evaluate.c:80-85 | whatever comma-separated text is split, the tokens are its non-empty fields in order |
| ReplayWire.EveryTextIsJoined | examples/esp-radar/console_test/main/radar_evaluate.c:80-85 | every text is such a comma-separated text |
| ReplayWire.AtoiOfDecimal | examples/esp-radar/console_test/main/radar_evaluate.c:93 | `atoi` reads back every number the sender writes |
| ReplayWire.AtoiReads | examples/esp-radar/console_test/main/radar_evaluate.c:93 | white space before a number, its sign and the text after its digits are read as C does |
| ReplayWire.ExtraFieldsIgnored | examples/esp-radar/console_test/main/radar_evaluate.c:82-89 | fields beyond the 28th do not matter |
| FieldSplit.StrTok | examples/esp-radar/console_test/main/radar_evaluate.c:80-84 | one call cuts the first remaining field out in place, leaves the others to be found, and touches nothing outside |
| FieldSplit.SplitFields | examples/esp-radar/console_test/main/radar_evaluate.c:82-85 | the field loop collects the addresses of the first 28 fields, each a string of its own in the buffer |
| FieldSplit.CsiInfoAnalysis | examples/esp-radar/console_test/main/radar_evaluate.c:73-101 | the message pushed is the meaning of the frame: fields 2, 21 and 27 of its 28, decoded |
| DrainLoop.DrainPartition | examples/esp-radar/console_test/main/radar_evaluate.c:200-222 | draining only cuts whole lines off; what stays is short or an unfinished line |
| DrainLoop.DrainStops | examples/esp-radar/console_test/main/radar_evaluate.c:200 | draining stops as soon as at most 250 bytes are left |
| DrainLoop.RestHoldsNoFrame | examples/esp-radar/console_test/main/radar_evaluate.c:200-222 | no frame stays behind in the buffer after a drain |
| DrainLoop.TurnFacts | examples/esp-radar/console_test/main/radar_evaluate.c:200-222 | one turn of the loop hands over exactly the first line's frame and keeps the rest of the work |
| ReplayChunks.NeverStuck | examples/esp-radar/console_test/main/radar_evaluate.c:200-222 | if every line shows the marker or its end early, the drain loop ends on whatever part has arrived |
| ReplayChunks.AfterIsSuffix | examples/esp-radar/console_test/main/radar_evaluate.c:187-217 | for every chunking the buffer is what follows the last consumed newline |
| ReplayChunks.RoundDone | examples/esp-radar/console_test/main/radar_evaluate.c:187 | a `recv` returns the least of what the network offers, what there is room for after draining, and what is left |
| ReplayChunks.RoomLeft | examples/esp-radar/console_test/main/radar_evaluate.c:187 | while a stream of fitting lines is incomplete there is room for another byte |
| ReplayChunks.SignlessChunkSticks | examples/esp-radar/console_test/main/radar_evaluate.c:200-222 | 251 bytes of a line without marker and newline, received on their own, stop the loop for ever |
| ReplayChunks.StuckExactly | examples/esp-radar/console_test/main/radar_evaluate.c:186-222 | for every stream, some chunking hangs the drain loop if and only if some line, as far as reception gets, shows no early marker or end |
| ReplayChunks.FitsWithinReach | examples/esp-radar/console_test/main/radar_evaluate.c:187 | whatever fits the buffer line by line lies before the point where the first too long line has filled the buffer |
| ReplayChunks.LinesOfPrefix | examples/esp-radar/console_test/main/radar_evaluate.c:186-222 | whatever prefix of a stream has arrived, its complete lines are the stream's first lines |
| ReplayReceiver.ProgressStep | examples/esp-radar/console_test/main/radar_evaluate.c:187-222 | one more chunk of any size keeps delivered frames and consumed lines in step |
| ReplayReceiver.ProgressEnds | examples/esp-radar/console_test/main/radar_evaluate.c:186-224 | the frames delivered are those of the complete lines received; a full buffer before the end means a line does not fit |
| ReplayReceiver.Connection.Shift | examples/esp-radar/console_test/main/radar_evaluate.c:213-217 | the bytes after the newline move to the front and the freed part is zeroed |
| ReplayReceiver.Connection.Deliver | examples/esp-radar/console_test/main/radar_evaluate.c:208-211 | the frame is handed over; cutting it leaves the following lines intact |
| ReplayReceiver.Connection.Drain | examples/esp-radar/console_test/main/radar_evaluate.c:200-222 | the loop ends and leaves and delivers what draining means |
| ReplayReceiver.Connection.Receive | examples/esp-radar/console_test/main/radar_evaluate.c:187-222 | a received chunk is appended, zero-terminated and drained |
| ReplayReceiver.Connection.Serve | examples/esp-radar/console_test/main/radar_evaluate.c:177-224 | each round receives exactly that many bytes, and rounds go on until the connection fails, all is received or the buffer is full; what is delivered is the meaning of the frames of the bytes received; unless the connection fails, all bytes are received if and only if all lines fit |
| ReplaySession.RowArrives | examples/esp-radar/console_test/main/radar_evaluate.c:73-101 | the line of one row means that row: same timestamps, same samples, or exactly the stated losses |
| ReplaySession.StreamMeansRows | examples/esp-radar/console_test/tools/esp_csi_tool.py:189-199 | the frames of a sent stream mean the rows in order, and the stream meets the receiver's conditions |
| ReplaySession.PrefixMeansRows | examples/esp-radar/console_test/main/radar_evaluate.c:186-224 | the frames of any received prefix mean the first so many rows |
| ReplaySession.ReceivedRows | examples/esp-radar/console_test/main/radar_evaluate.c:186-224 | a replay cut short delivers first rows only; one that filled the buffer exactly the rows before the first that does not fit |
| ReplaySession.GoodRowExactly | examples/esp-radar/console_test/main/radar_evaluate.c:73-101 | the line of a row is handed over unchanged if and only if it is over 250 bytes and the row has 1 to 104 samples and a timestamp of at most 31 bytes |
| ReplaySession.GoodRowsArrive | examples/esp-radar/console_test/tools/esp_csi_tool.py:189-199 | good rows are expected one for one, with their timestamps and samples |
| ReplaySession.EvaluateDataSend | examples/esp-radar/console_test/tools/esp_csi_tool.py:189-199 | what is sent is the stream of the rows' lines |
| ReplaySession.Replay | examples/esp-radar/console_test/tools/esp_csi_tool.py:189-199 | for every chunking, what arrives is what must come of the rows received whole, up to the first undefined frame; unless the connection fails before the end these are the rows before the first too long line, and good rows all come back unchanged and in order |
| SlidingWindow.StoreInSync | examples/esp-radar/connect_rainmaker/main/app_main.c:116-123 | storing a sample keeps the newest samples in their slots |
| SlidingWindow.RunInSync | examples/esp-radar/connect_rainmaker/main/app_main.c:116-123 | so does every run of samples and window changes |
| SlidingWindow.FullRingIsRotation | examples/esp-radar/console_test/main/app_main.c:376-382 | a full window is the last samples, rotated |
| SlidingWindow.WindowRefines | examples/esp-radar/connect_rainmaker/main/app_main.c:116-135 | after any run with window changes, once the window is full again, the slots are a permutation of the last samples and as many exceed any threshold |
| SlidingWindow.RunOnIndices | examples/esp-radar/connect_rainmaker/main/app_main.c:116-123 | which samples the slots hold depends only on when samples came and the window changed |
| SlidingWindow.WindowExactly | examples/esp-radar/connect_rainmaker/main/app_main.c:116-135 | for every run with any window changes, the count is that of the last samples for all values and thresholds if and only if the slots in use hold their numbers once each |
| SlidingWindow.StaleSlots | examples/esp-radar/connect_rainmaker/main/app_main.c:118-125 | that condition can fail: an old outlier still counts |
| SlidingWindow.DetectInLoop | examples/esp-radar/connect_rainmaker/main/app_main.c:127-135 | the test inside the loop is the final count against the required number |
| SlidingWindow.CountInLoop | examples/esp-radar/console_test/main/app_main.c:384-392 | the loop counts the slots in use above the threshold |
| SlidingWindow.CountIsNumber | examples/esp-radar/connect_rainmaker/main/app_main.c:127-130 | what is counted is the number of slots strictly above the threshold |
| Presence.RememberMore | examples/esp-radar/connect_rainmaker/main/app_main.c:179-185 | overwriting one variable keeps it the latest time of movement |
| Presence.LastMoveRemembers | examples/esp-radar/connect_rainmaker/main/app_main.c:179-185 | in every run that variable is the latest time of movement |
| Presence.PresenceIsHistory | examples/esp-radar/connect_rainmaker/main/app_main.c:170-177 | in every run that one time decides presence exactly as the whole history of movement does |
| Presence.PresenceInMillis | examples/esp-radar/connect_rainmaker/main/app_main.c:173 | someone is present for a thousand milliseconds per second of timeout after boot and after each movement, and no longer |
| CloudReports.StepMirrors | examples/esp-radar/connect_rainmaker/main/app_main.c:209-233 | each report step keeps flag, cloud and counts in agreement |
| CloudReports.RunMirrors | examples/esp-radar/connect_rainmaker/main/app_main.c:205-233 | in every run the cloud's movement status is the report flag, a false flag has no pending count, the someone report is never sent, and reported plus pending counts are the movement ticks |
| CloudReports.MovesIsNumber | examples/esp-radar/connect_rainmaker/main/app_main.c:209 | the movements to be counted are the movement ticks |
| CloudReports.ReportedExactly | examples/esp-radar/connect_rainmaker/main/app_main.c:209-233 | in every run a tick sends one report, with all pending movements, if and only if the cloud shows the wrong status or movement goes on more than 10000 ms after the last report |
| CloudReports.MovementIsFresh | examples/esp-radar/connect_rainmaker/main/app_main.c:217-233 | after every movement tick the last report says movement and is at most 10000 ms old |
| CloudReports.ReportedForExample | examples/esp-radar/connect_rainmaker/main/app_main.c:209-233 | the reports of three given ticks |
| CloudReports.QuietDrains | examples/esp-radar/connect_rainmaker/main/app_main.c:217-233 | quiet ticks send exactly the backlog of none, one or two reports and then nothing |
| CloudReports.QuietWithinTwo | examples/esp-radar/connect_rainmaker/main/app_main.c:217-233 | after any run two quiet ticks make the cloud show no movement, and later ones report nothing |
| CloudReports.MovingIsRateLimited | examples/esp-radar/connect_rainmaker/main/app_main.c:217-233 | within a stretch of movement successive reports are more than ten seconds apart |
| Calibration.TimerRunsWhileCalibrating | examples/esp-radar/connect_rainmaker/main/app_main.c:256-310 | in every interleaving the timer runs exactly while the calibration flag is set |
| Calibration.TakesEffect | examples/esp-radar/connect_rainmaker/main/app_main.c:293-310 | writing the flag starts or stops calibration and timer at once |
| Calibration.EndShowsTimeout | examples/esp-radar/connect_rainmaker/main/app_main.c:260-261 | at its end the time shown is the timeout in force |
| Calibration.LastsExactly | examples/esp-radar/connect_rainmaker/main/app_main.c:256-310 | an undisturbed calibration ends with callback max(1, T div 5), even if the timeout is rewritten meanwhile |
| Calibration.StoredFlagSticks | examples/esp-radar/connect_rainmaker/main/app_main.c:293-340 | a flag loaded as true calibrates without a timer for ever, unless and until the flag is written |
| Calibration.TimeoutTruncated | examples/esp-radar/connect_rainmaker/main/app_main.c:56-377 | the written timeout is honoured if and only if it is below 256 |
| RainmakerRadar.UpdateReports | examples/esp-radar/connect_rainmaker/main/app_main.c:209-233 | the conditional updates of the four report variables are one report step |
| RainmakerRadar.Device.StoreSample | examples/esp-radar/connect_rainmaker/main/app_main.c:116-123 | the sample goes into the ring's next slot |
| RainmakerRadar.Device.FilterOutliers | examples/esp-radar/connect_rainmaker/main/app_main.c:116-135 | the movement decision counts the slots in use, and after a full window the last samples |
| RainmakerRadar.Device.JudgePresence | examples/esp-radar/connect_rainmaker/main/app_main.c:170-196 | the presence decision equals the history of earlier processed ticks |
| RainmakerRadar.Device.ReportToCloud | examples/esp-radar/connect_rainmaker/main/app_main.c:205-233 | what is sent follows from the reports so far and the ticks, as `ReportedExactly` says, and mirror and counts hold over all ticks |
| RainmakerRadar.Device.RadarCallback | examples/esp-radar/connect_rainmaker/main/app_main.c:103-234 | which ticks are judged and reported, and what movement and presence they see |
| RainmakerRadar.Device.CalibrateTimerCallback | examples/esp-radar/connect_rainmaker/main/app_main.c:256-271 | the countdown step, which keeps everything in order; at its end the trained threshold takes effect |
| RainmakerRadar.Device.WriteCallback | examples/esp-radar/connect_rainmaker/main/app_main.c:280-320 | the effect of each kind of write, with any value, on configuration, countdown and window history |
| ConsoleRadar.Radar.RadarCallback | examples/esp-radar/console_test/main/app_main.c:355-400 | both statuses speak of the last samples once the window is full since its last change |
| ConsoleRadar.Radar.SetBuffSize | examples/esp-radar/console_test/main/app_main.c:203-205 | any new window size is stored and leaves rings and counter as they are |
| Collection.Collector.Command | examples/esp-radar/console_test/main/app_main.c:211-223 | the command starts a new collection from its 32-bit argument, replacing a running one |
| Collection.Collector.PeriodElapses | examples/esp-radar/console_test/main/app_main.c:154-165 | the timer lives, under its label, for exactly the periods asked for, numbered down to 1 |
| Collection.Collector.PrintRecord | examples/esp-radar/console_test/main/app_main.c:310-327 | a record is printed with the label and number in force, after all those printed before |
| Collection.Collect | examples/esp-radar/console_test/main/app_main.c:154-223 | the device's variables and the host's loop together: the files opened are those of the periods |
| Collection.CountsDown | examples/esp-radar/console_test/main/app_main.c:154-223 | the timer fires exactly as often as asked for, counting down to 1, and the label is in force exactly as long |
| Collection.PrintedIsAccepted | examples/esp-radar/console_test/tools/esp_csi_tool.py:1218-1233 | records printed in base64 with 8-bit samples pass the host's length check unchanged |
| Collection.CollectionFiles | examples/esp-radar/console_test/tools/esp_csi_tool.py:1235-1253 | from any point of a collection the host writes the files of the remaining periods |
| Collection.CollectionEndToEnd | examples/esp-radar/console_test/main/app_main.c:154-223 | the host ends up with one file per period that has records, never mixing periods |
| Collection.PeriodFilesDescend | examples/esp-radar/console_test/main/app_main.c:156-158 | the files' numbers strictly decrease |
| Collection.TwoCollections | examples/esp-radar/console_test/tools/esp_csi_tool.py:1235-1253 | two collections have exactly the files of both if and only if they do not meet in the same label and number |
| Collection.BackToBackMerges | examples/esp-radar/console_test/tools/esp_csi_tool.py:1235-1253 | two collections with nothing between them can end up in one file |
| Segmentation.SegmentsPartition | examples/esp-radar/console_test/tools/esp_csi_tool.py:1235-1253 | the files in opening order are the labelled records, and each file has one label and number |
| Segmentation.NeighboursDiffer | examples/esp-radar/console_test/tools/esp_csi_tool.py:1235-1253 | consecutive files differ in label or number, or an unlabelled record came exactly between them |
| Segmentation.SegmentsSnoc | examples/esp-radar/console_test/tools/esp_csi_tool.py:1235-1253 | comparing a record with the previous one only is enough to build the maximal runs |
| Segmentation.SegmentsConcat | examples/esp-radar/console_test/tools/esp_csi_tool.py:1235-1253 | streams one after the other have the files of both, the meeting ones glued if and only if they have the same label and number |
| Segmentation.WriteRecord | examples/esp-radar/console_test/tools/esp_csi_tool.py:1235-1250 | a record extends the last file or opens the next |
| Segmentation.DamagedLeavesNoTrace | examples/esp-radar/console_test/tools/esp_csi_tool.py:1218-1233 | a line that does not decode to as many samples as it claims changes nothing in the files, wherever it comes |
| Segmentation.UndamagedIsKept | examples/esp-radar/console_test/tools/esp_csi_tool.py:1218-1235 | any other line is kept in its place with the samples it decodes to |
| Segmentation.WrittenWasSaid | examples/esp-radar/console_test/tools/esp_csi_tool.py:1218-1250 | every row of every file came as a line with the claimed number of samples |
| Segmentation.SerialHandle | examples/esp-radar/console_test/tools/esp_csi_tool.py:1164-1253 | the files written are the maximal runs of accepted labelled records |
| StatusHistory.StaysAlternate | examples/esp-radar/console_test/tools/esp_csi_tool.py:1024-1029 | neighbouring stays differ in status, the oldest from the initial one, the newest is the present one |
| StatusHistory.StaysOrdered | examples/esp-radar/console_test/tools/esp_csi_tool.py:1024-1038 | with an ordered clock a stay is last seen between its start and the start of the next |
| StatusHistory.TableStep | examples/esp-radar/console_test/tools/esp_csi_tool.py:1024-1038 | shifting the table and overwriting cells yields the table of the 20 newest stays, with no stop time in the top row |
| StatusHistory.ChangesAreAll | examples/esp-radar/console_test/tools/esp_csi_tool.py:1024 | the changes are the samples that differ from the one before, the first from (0, 0) |
| StatusHistory.TableShowsChanges | examples/esp-radar/console_test/tools/esp_csi_tool.py:1024-1038 | row i shows status and time of the i-th newest change, how long it was seen, and as stop time the time of the next change; row 0 has none; other rows are empty |
| StatusHistory.MovesAreColumn | examples/esp-radar/console_test/tools/esp_csi_tool.py:1040-1046 | the movement records are the movement column of the histogram |
| StatusHistory.CountsSum | examples/esp-radar/console_test/tools/esp_csi_tool.py:1045-1046 | the histogram sums to the samples seen |
| StatusHistory.CountIsNumber | examples/esp-radar/console_test/tools/esp_csi_tool.py:1045-1046 | each cell is the number of samples with its status |
| StatusHistory.ListedIsColumn | examples/esp-radar/console_test/tools/esp_csi_tool.py:1040-1046 | whatever resets have left in the list, its counts sum to the movement column |
| StatusHistory.BlanksAreFlat | examples/esp-radar/console_test/tools/esp_csi_tool.py:948-955 | rows zeroed by resets add to no bar |
| StatusHistory.BarIsSumOfBars | examples/esp-radar/console_test/tools/esp_csi_tool.py:622-668 | each bar of a view is the sum of the bars of the view below it |
| StatusHistory.MoveAtIsClock | examples/esp-radar/console_test/tools/esp_csi_tool.py:1041-1043 | hour, minute and second of a record are those of the time |
| StatusHistory.MoveInSpan | examples/esp-radar/console_test/tools/esp_csi_tool.py:626-668 | a record is in a day, hour, minute or second if and only if its time is in that span |
| StatusHistory.HeightIsNumber | examples/esp-radar/console_test/tools/esp_csi_tool.py:626-668 | a bar's height is the number of movement samples in its span |
| StatusHistory.History.BeginRow | examples/esp-radar/console_test/tools/esp_csi_tool.py:1025-1032 | the shift in place, with what the top row keeps |
| StatusHistory.History.RecordStatus | examples/esp-radar/console_test/tools/esp_csi_tool.py:1010-1038 | the table becomes that of all samples since the last reset and this one |
| StatusHistory.History.RadarDataHandle | examples/esp-radar/console_test/tools/esp_csi_tool.py:1006-1046 | table, movement list and histogram all describe the samples since the last reset |
| StatusHistory.History.ResetEvaluation | examples/esp-radar/console_test/tools/esp_csi_tool.py:948-955 | table, statuses and histogram are as at the start; the movement list keeps its rows as zeros |
| StatusHistory.History.StatisticsView | examples/esp-radar/console_test/tools/esp_csi_tool.py:622-668 | each bar is the movements of its hour, minute or second since the last reset, and the sum of its own finer bars |
| CaptureQueue.StepKeeps | examples/get-started/csi_recv/main/app_main.c:87-165 | every single step keeps bounds, ownership and order |
| CaptureQueue.CaptureIsSafe | examples/get-started/csi_recv/main/app_main.c:136-231 | no send fails after the check, queued and in-flight items never exceed 3, live allocations never exceed 4 |
| CaptureQueue.CaptureFreesInOrder | examples/get-started/csi_recv/main/app_main.c:94-99 | records are freed in the order in which they were allocated |
| CaptureQueue.ConsoleIsSafe | examples/esp-radar/console_test/main/app_main.c:343-353 | the console queue's bounds |
| CaptureQueue.NothingLostOrLeaked | examples/get-started/csi_recv/main/app_main.c:87-165 | accepted records are processed once in order, nothing is freed twice, and at rest nothing is left |
| CaptureQueue.TakesHead | examples/get-started/csi_recv/main/app_main.c:94-99 | a waiting consumer takes the head of the queue and processes and frees exactly that record |
| CaptureQueue.OffersRecord | examples/get-started/csi_recv/main/app_main.c:136-164 | a record that arrives while there is room is accepted at the end |
| CaptureQueue.DropsRecord | examples/esp-radar/console_test/main/app_main.c:343-353 | a record that finds no room or no memory changes nothing but the count of failures |
| CaptureQueue.RestIsReachable | examples/get-started/csi_recv/main/app_main.c:87-165 | from every reachable state, without further arrivals, both can finish: every accepted record processed, every allocation freed |
| CaptureQueue.NoLeakExactly | examples/get-started/csi_recv/main/app_main.c:136-164 | no interleaving leaks a record if and only if the producer looks first or frees on a full queue; otherwise one can be leaked for ever |
| CaptureQueue.CarelessSendLeaks | examples/get-started/csi_recv/main/app_main.c:160-164 | without the check a failed send would leak its record |
| CaptureQueue.LeakIsForEver | examples/get-started/csi_recv/main/app_main.c:160-164 | a leaked record stays leaked whatever happens afterwards |
| Recogniser.MeanSquareZero | examples/get-started/tools/csi_data_read_parse_3d.py:862-871 | the distance is zero exactly between equal rows |
| Recogniser.MeanSquareAdds | examples/get-started/tools/csi_data_read_parse_3d.py:862-871 | a difference of d in a column adds d squared over the number of columns |
| Recogniser.NearestForExample | examples/get-started/tools/csi_data_read_parse_3d.py:855-880 | two differences of 2 are nearer than one of 3 |
| Recogniser.AnswerUnique | examples/get-started/tools/csi_data_read_parse_3d.py:855-880 | only one answer is the first nearest template |
| Recogniser.RingKeepsFrames | examples/get-started/tools/csi_data_read_parse_3d.py:851-852 | the slot of each recent frame still holds it |
| Recogniser.SlotColumn | examples/get-started/tools/csi_data_read_parse_3d.py:851-852 | each column of a slot is that of the last of its frames that was long enough |
| Recogniser.RowsMeetFrames | examples/get-started/tools/csi_data_read_parse_3d.py:859-865 | which frame each template row is compared with |
| Recogniser.DistanceIsToFrame | examples/get-started/tools/csi_data_read_parse_3d.py:859-871 | the distance of each template row is the distance to that frame |
| Recogniser.AlignedExactly | examples/get-started/tools/csi_data_read_parse_3d.py:859-865 | template rows meet the frames in order if and only if there is one row |
| Recogniser.LowPassRecognises | examples/get-started/tools/csi_data_read_parse_low.py:617-690 | the signal just trained is met at distance 0 by the first template trained with it |
| Recogniser.Machine.StartTraining | examples/get-started/tools/csi_data_read_parse_3d.py:274-288 | a zero template under the name, in its old place if there was one; recognition stops |
| Recogniser.Machine.Train | examples/get-started/tools/csi_data_read_parse_3d.py:811-834 | one frame fills one row; the last row ends the training, with each row holding its own frame |
| Recogniser.Machine.ToggleRecognition | examples/get-started/tools/csi_data_read_parse_3d.py:290-298 | a running training stops and no other can follow |
| Recogniser.Machine.TemplateDistance | examples/get-started/tools/csi_data_read_parse_3d.py:857-874 | the least distance over a template's rows, capped |
| Recogniser.Machine.Recognise | examples/get-started/tools/csi_data_read_parse_3d.py:848-892 | the first template that attains the least distance over all rows of all templates, or none if nothing is below the cap |
| Recogniser.Machine.TrainAndRecognise | examples/get-started/tools/csi_data_read_parse_low.py:617-703 | training a signal and then recognising it gives distance 0 and the first template with exactly its row |
| Smoothing.StagesStayInRange | examples/get-started/tools/csi_data_read_parse_3d.py:745-762 | both filter stages stay inside any range that holds 0 and the inputs |
| Smoothing.InputsReact | examples/get-started/tools/csi_data_read_parse_3d.py:745-760 | which columns depend on which samples, and how, in both tools |
| Smoothing.InputsOfZeros | examples/get-started/tools/csi_data_read_parse_3d.py:723-728 | zeros give zeros; 44, 128 or 192 columns are filled |
| Smoothing.OtherColumnsStay | examples/get-started/tools/csi_data_read_parse_3d.py:745-762 | columns that a frame does not fill keep their values, at first 0 |
| Smoothing.TotalReacts | examples/get-started/tools/csi_data_read_parse_3d.py:764-777 | the plotted sum adds up the columns |
| Smoothing.EvenSumReacts | examples/get-started/tools/csi_data_read_parse_low.py:579-589 | the plotted sum of the low-pass tool adds up the even samples |
| Smoothing.SignedBytesStayInRange | examples/get-started/tools/csi_data_read_parse_3d.py:745-762 | with signed bytes every smoothed value and cascaded value stays in the input range |
| Smoothing.ErrorHalves | examples/get-started/tools/csi_data_read_parse_3d.py:755 | a constant input shrinks the error by exactly 2 to the power n in n frames |
| Smoothing.CascadedErrorHalves | examples/get-started/tools/csi_data_read_parse_3d.py:745-762 | under a constant input the second stage's error after n frames is its own plus n halves of the first stage's, over 2 to the power n |
| Smoothing.HalvedIsQuotient | examples/get-started/tools/csi_data_read_parse_3d.py:755 | halving n times is dividing by 2 to the power n |
| Smoothing.ScrolledNext | examples/get-started/tools/csi_data_read_parse_3d.py:739-759 | scrolling and smoothing keeps row k from the end the filter state k frames ago |
| Smoothing.Plot.Push | examples/get-started/tools/csi_data_read_parse_3d.py:784-796 | the plot shows exactly the last 200 sums, ending at `prog` |
| Smoothing.Histories.Fill | examples/get-started/tools/csi_data_read_parse_3d.py:722-796 | both histories, the cascaded sums and every plotted point are those of the frames so far |
| Smoothing.LowPass.Fill | examples/get-started/tools/csi_data_read_parse_low.py:549-604 | the low-pass filter step stays in range and plots the sum of the even samples |

## Left out

- Drawing, widgets and all Qt, pyqtgraph and PIL code: no state worth a proof.
- Wi-Fi, ping, flash storage, LED, RainMaker and FreeRTOS internals: only queue, timer, clock and report operations appear.
- The radar algorithm of `libesp-radar.a` is not part of this model; jitter, wander and trained thresholds are inputs.
- `deangle`, square roots, Butterworth and median filtering: trained magnitudes are inputs of `Recogniser.Machine.Train`.
- CSV, JSON, regular expressions and time stamps in the readers: rows, records and samples are given as values.
- Connection errors: a failing `recv` ends the connection, as an exhausted list of cuts does; sockets and tasks are not modelled.
- Partial `send` calls of the host and the temporary decode beside each encode.
- Lenient base64: Python skips foreign characters and mbedTLS accepts some white space; texts that no encoder produces are not distinguished further.
- Collection.Collector.Command: labels longer than 15 bytes overrun the field they are copied to, which C leaves undefined.
- FieldSplit.CsiInfoAnalysis: frames with fewer than 28 fields and timestamps of 32 bytes or more are undefined behaviour in C and only marked as such; `atoi` is unbounded and the written length of the decoder call is not modelled.
- RainmakerRadar.Device.RadarCallback: lamp colours and log lines are not modelled, nor the wrap-around of the 32-bit clock and counters.
- CaptureQueue.NothingLostOrLeaked: a record is one value; the copy in the source is shallow, so the samples behind its pointer stay in the driver's memory.
- Recogniser.Machine.Recognise: columns beyond the length of a frame keep what an earlier, longer frame left there, as in the source; labels changed in the text field during training are not modelled.
- Smoothing.Histories.Fill: only the last row of the second-stage array, the one the source uses, is kept; the slow average `xsum` and the unused `gval` are left out.
- StatusHistory.History.RadarDataHandle: the eigenvalue arrays and tables, which scroll like the plots of `Smoothing`.
- The remaining `csi_data_read_parse` variants are copies of the same loops.
