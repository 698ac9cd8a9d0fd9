# Paperwork's scheduler, scan/OCR jobs and 2-bit gray PDF writer, in Dafny

This project models three parts of Paperwork, a document manager:

- **The job scheduler** (`src/paperwork/frontend/jobs.py`). Job factories
  hand out ids. Jobs compare by priority. A `JobScheduler` runs one job at
  a time on a worker thread, the highest-priority queued job first (as
  intended: a cancellation breaks the heap order, see jobs.py:164 under
  "## Findings").
  Jobs can be added, cancelled by identity or by factory, and the scheduler
  can be started and stopped.
  - The model is module `Jobs`. Each critical section of the source is one
    pure function from scheduler state to scheduler state.
  - Module `JobsAsWritten` models the paths where the source departs from
    its evident design (see "## Findings").
- **The scan and OCR jobs** (`src/paperwork/frontend/mainwindow/scan.py`).
  - `ScanFlow`: the scan job's read loop and the signals it emits. The
    workflow relays those signals, and the "scan and OCR" chainer requests
    an OCR job for a finished scan.
  - `OcrScore`: how one OCR thread turns line boxes into text and scores
    it. It tries the spell checker first, then the "lucky guess" word count.
  - `OcrFanout`: the OCR job runs one thread per rotation angle, with a
    bounded number alive at a time. It polls them, sorts the results by
    descending score and emits the best angle.
- **The 2-bit gray PDF writer** (`src/paperwork/backend/img/pdfgray.py`).
  - `GrayPacking`: packing 8-bit gray pixels into 2-bit samples, four to a
    byte, rows byte-aligned. The encoder's flat loop, with its shifts and
    ors, is proved equal to a row-by-row reference. The reference is
    proved to unpack back to every pixel's sample.
  - `PdfWriter`: the `PDFStream` offset tracking and the whole file's
    text. It proves three things:
    - the cross-reference table resolves every object to its header;
    - the trailer's `/Size` matches the table;
    - `startxref` gives the table's offset.
  - `Decimal`: the `%u` and `%010u` numerals and reading them back.
  - `Basics`: shared `Option`/`Result` types and "first maximum" selection.

Threads, timing and I/O are replaced by inputs:
- the scanner driver's observations are a sequence of read steps;
- OCR completions are one set of finished angles per poll;
- OCR engine and spell-checker results are parameters;
- image encodings are given strings.

## Model

| member | source | states |
|---|---|---|
| Basics.FirstMax | src/paperwork/frontend/jobs.py:109 | the index returned holds a maximal key and every earlier key is strictly smaller: the earliest of the best |
| Basics.FirstMaxUnique | src/paperwork/frontend/mainwindow/scan.py:264-269 | at most one index is the earliest maximal one, so "the winner" is well defined |
| Decimal.Show | src/paperwork/backend/img/pdfgray.py:171 | `%u` yields a non-empty string of digits with no leading zero |
| Decimal.ReadShow | src/paperwork/backend/img/pdfgray.py:171 | a `%u` numeral reads back as its number |
| Decimal.ShowRead | src/paperwork/backend/img/pdfgray.py:171 | any digit string without a leading zero is the `%u` numeral of its value (the other direction of the round trip) |
| Decimal.ShowLength | src/paperwork/backend/img/pdfgray.py:159 | a number takes at most k digits exactly when it is below 10^k |
| Decimal.ZeroPadRoundTrip | src/paperwork/backend/img/pdfgray.py:159 | `%010u` pads to at least 10 characters and reads back as the offset |
| Decimal.ZeroPadFits | src/paperwork/backend/img/pdfgray.py:159 | the padded field is exactly `width` characters if and only if the number is below 10^width |
| Jobs.Compare | src/paperwork/frontend/jobs.py:66-69 | `__cmp__` orders a job first exactly when its priority is higher, and ties exactly on equal priority |
| Jobs.Make | src/paperwork/frontend/jobs.py:25-28 | a made job belongs to its factory and takes the counter's current value as its id, and the counter moves past it |
| Jobs.MakeAll | src/paperwork/frontend/jobs.py:25-28 | successive `make` calls give one factory's jobs strictly increasing ids, all within the counter's range |
| Jobs.MadeIdsDistinct | src/paperwork/frontend/jobs.py:28 | no two jobs of a factory share an id |
| Jobs.NewScheduler | src/paperwork/frontend/jobs.py:76-86 | a new scheduler is stopped, threadless, with an empty queue and no active job, and satisfies the invariant |
| Jobs.Start | src/paperwork/frontend/jobs.py:88-95 | start fails its assertions exactly when the scheduler runs or has a thread; otherwise it runs with a thread and leaves queue and active job alone, keeping the invariant |
| Jobs.Add | src/paperwork/frontend/jobs.py:142-155 | a job is refused with `JobException` exactly when it is already queued or active (by identity); otherwise it is appended and nothing else changes |
| Jobs.Dispatch | src/paperwork/frontend/jobs.py:100-114 | the worker exits exactly when stopped, waits exactly when running with an empty queue, and otherwise moves a queued job of top priority into the active slot, removing exactly that job from the queue and keeping the invariant |
| Jobs.Finish | src/paperwork/frontend/jobs.py:122-139 | after `do()` the active slot is cleared, the queue is untouched, and the worker continues exactly while the scheduler runs |
| Jobs.FailureDoesNotStopScheduler | src/paperwork/frontend/jobs.py:122-129 | a `do()` that raises leaves the scheduler exactly as one that returns |
| Jobs.Keep | src/paperwork/frontend/jobs.py:162-166 | the intended sweep keeps exactly the queued jobs the condition does not match, never duplicating one |
| Jobs.KeepKeepsOrder | src/paperwork/frontend/jobs.py:162-166 | the jobs the intended sweep keeps stay in their queue order, a subsequence of the queue, which the tie-break by queue position relies on |
| Jobs.CancelMatching | src/paperwork/frontend/jobs.py:158-181 | only the queue changes, and it loses exactly the matching jobs; a matching active job is asked to stop if and only if it can stop, and is only warned about if and only if it cannot |
| Jobs.Cancel | src/paperwork/frontend/jobs.py:183-187 | cancelling a job removes exactly that job from the queue and requests a stop exactly when it is the active, stoppable job |
| Jobs.CancelAll | src/paperwork/frontend/jobs.py:189-193 | exactly the jobs of the given factory leave the queue, and the active job is stopped only if that factory made it |
| Jobs.Stop | src/paperwork/frontend/jobs.py:195-211 | stop fails exactly when the scheduler is not running or has no thread; otherwise it clears both, the join leaves no job active, the queue is kept, and the active job is asked to stop exactly when it can stop |
| Jobs.Lifecycle | src/paperwork/frontend/jobs.py:195-211 | a stopped scheduler cannot be stopped and can be started once, not twice, and stopping it afterwards restores the stopped state |
| Jobs.RestartAfterStop | src/paperwork/frontend/jobs.py:195-211 | a running scheduler can be stopped and started again, and the job that was running when it stopped can then be added again |
| Jobs.Drain | src/paperwork/frontend/jobs.py:100-139 | run to idle, the worker runs every queued job exactly once (as a multiset) and empties the queue; a stopped worker runs nothing |
| Jobs.DrainRunsByPriority | src/paperwork/frontend/jobs.py:109 | jobs run in order of non-increasing priority |
| JobsAsWritten.RemoveFirst | src/paperwork/frontend/jobs.py:164 | `list.remove` drops one element exactly when the job is present and otherwise leaves the list as it was |
| JobsAsWritten.RemoveFirstAt | src/paperwork/frontend/jobs.py:164 | in a queue without duplicates, removing the job at a position drops exactly that position |
| JobsAsWritten.SweepAsWritten | src/paperwork/frontend/jobs.py:162-168 | the sweep as written raises `TypeError` exactly when some queued job matches, after removing one job; when none matches it leaves the queue as it was and the loop variable on the last queued job |
| JobsAsWritten.SweepRemovesFirstMatch | src/paperwork/frontend/jobs.py:162-168 | with no job queued twice, the sweep removes exactly the first matching job and raises, so a later matching job stays queued where `Jobs.Keep` drops it |
| JobsAsWritten.SweepLogFixed | src/paperwork/frontend/jobs.py:162-164 | with its log line corrected, the loop only removes jobs and leaves its loop variable on a queued job whenever it ran at all |
| JobsAsWritten.SweepSkipsNeighbour | src/paperwork/frontend/jobs.py:162-166 | with two adjacent matching jobs, the loop as written removes the first and raises `TypeError`; with the log line corrected the iterator still steps over the second; either way the second stays queued, while `Jobs.Keep` drops both |
| JobsAsWritten.CancelQueueAsWritten | src/paperwork/frontend/jobs.py:163 | cancelling as written only ever removes queued jobs |
| JobsAsWritten.CancelLeavesTargetQueued | src/paperwork/frontend/jobs.py:163 | since the condition is given `job.factory`, cancel as written leaves the queue unchanged and its target queued; `Jobs.Cancel` removes it |
| JobsAsWritten.ActiveEffectAsWritten | src/paperwork/frontend/jobs.py:170-179 | the active-job branch as written returns only when the active job does not match; otherwise it raises `NameError` exactly when the loop variable is unbound and `TypeError` when it is not, having called `stop()` exactly on a stoppable loop-variable job |
| JobsAsWritten.CancelMatchingAsWritten | src/paperwork/frontend/jobs.py:158-181 | only the queue changes; any matching queued job makes it raise `TypeError` with nothing stopped; the only job it can ask to stop is a queued one, never the active job |
| JobsAsWritten.CancelCallAsWritten | src/paperwork/frontend/jobs.py:186-187 | the call `cancel` makes as written leaves both the queue and the active job as they were |
| JobsAsWritten.CancelStopsWrongJob | src/paperwork/frontend/jobs.py:170-179 | cancelling the active job as written raises `NameError` when the queue is empty; otherwise it asks the last queued job to stop if that job can stop, never the active job, and raises `TypeError`; `Jobs.Cancel` acts on the active job |
| JobsAsWritten.StopAsWritten | src/paperwork/frontend/jobs.py:195-211 | stop as written succeeds exactly when running with a thread and the active job is absent or stoppable, and then leaves no job active; `NotImplementedError` leaves it not running but still holding its thread |
| JobsAsWritten.StopStrandsScheduler | src/paperwork/frontend/jobs.py:204-205 | stopping while an unstoppable job runs fails as written and the scheduler can never be started again; `Jobs.Stop` succeeds and allows a restart |
| JobsAsWritten.HeapRootIsMax | src/paperwork/frontend/jobs.py:109 | in a list with the heap property, no job outranks the one at index 0 |
| JobsAsWritten.HeapPopJob | src/paperwork/frontend/jobs.py:109 | `heappop` returns a job of the list, and one of the highest priority whenever the list has the heap property |
| JobsAsWritten.RemoveBreaksHeap | src/paperwork/frontend/jobs.py:164 | removing the root of the heap `[a, b, c]` leaves `[b, c]`, which is no heap, and `heappop` then returns `b` although `c` outranks it; `Jobs.Dispatch` runs `c` |
| OcrScore.BoxesToText | src/paperwork/frontend/mainwindow/scan.py:142-146 | the text is the boxes' contents plus one newline each, and ends in a newline when there is any box |
| OcrScore.BoxesToTextRoundTrip | src/paperwork/frontend/mainwindow/scan.py:142-146 | reading the text back line by line gives every box's content, in order, when no content holds a newline |
| OcrScore.SplitOnSpace | src/paperwork/frontend/mainwindow/scan.py:159 | `split(" ")` gives one more piece than there are spaces, and no piece holds a space |
| OcrScore.SplitThenJoin | src/paperwork/frontend/mainwindow/scan.py:159 | joining the pieces with single spaces restores the text |
| OcrScore.JoinThenSplit | src/paperwork/frontend/mainwindow/scan.py:159 | splitting space-free pieces joined by single spaces gives the pieces back |
| OcrScore.InnerNewlineIsNoWord | src/paperwork/frontend/mainwindow/scan.py:158 | a piece with a newline before its last character never matches `^[a-zA-Z]{4,}$` |
| OcrScore.IsWord | src/paperwork/frontend/mainwindow/scan.py:158-160 | the `^[a-zA-Z]{4,}$` match: four or more ASCII letters, optionally followed by one final newline; no contract of its own, `InnerNewlineIsNoWord` and `LuckyGuessCountsWords` state what it accepts |
| OcrScore.CountWords | src/paperwork/frontend/mainwindow/scan.py:157-161 | the score loop: never more points than pieces; `LuckyGuessScoresPieces` ties it to `LuckyGuess` on every input |
| OcrScore.LuckyGuess | src/paperwork/frontend/mainwindow/scan.py:148-162 | the text is returned unchanged with a score of at most one point per space-separated piece |
| OcrScore.LuckyGuessScoresPieces | src/paperwork/frontend/mainwindow/scan.py:153-161 | for any space-free pieces joined by single spaces, the score is exactly the number of pieces that are words |
| OcrScore.LuckyGuessCountsWords | src/paperwork/frontend/mainwindow/scan.py:153-161 | words of four or more ASCII letters joined by spaces score exactly one point each |
| OcrScore.AllWordsCount | src/paperwork/frontend/mainwindow/scan.py:159-161 | when every piece matches, every piece scores |
| OcrScore.FirstSuccess | src/paperwork/frontend/mainwindow/scan.py:178-194 | the scoring method used is the first that did not raise, and none is used only when all raised |
| OcrScore.RunThread | src/paperwork/frontend/mainwindow/scan.py:164-194 | if the engine raises, the thread keeps score -1 and no boxes; otherwise it keeps the boxes and the spell checker's score, or the lucky guess's when the checker raised; the "no score" method is never reached |
| OcrScore.FailedOcrOnlyScoresMinusOne | src/paperwork/frontend/mainwindow/scan.py:135-136 | the score stays -1 exactly when the engine failed, when the spell checker never answers -1 |
| OcrFanout.Angles | src/paperwork/frontend/mainwindow/scan.py:282 | `range(0, n * 90, 90)` has `max(n, 0)` angles, the i-th being 90·i |
| OcrFanout.AnglesDistinct | src/paperwork/frontend/mainwindow/scan.py:227 | the angles strictly increase, so each is one key of the rotated-image dictionary |
| OcrFanout.Collect | src/paperwork/frontend/mainwindow/scan.py:245-252 | a poll's pass loses no thread (survivors plus collected results are the threads it started with), records only finished angles with their own scores, and collects at least one when the first thread it looks at has finished |
| OcrFanout.Fill | src/paperwork/frontend/mainwindow/scan.py:254-261 | starting threads moves angles from backlog to in-flight without loss, never above the bound, until the pool is full or the backlog empty |
| OcrFanout.PollKeepsInv | src/paperwork/frontend/mainwindow/scan.py:243-262 | one poll keeps every angle in exactly one place, the in-flight bound, and every recorded score correct |
| OcrFanout.Poll | src/paperwork/frontend/mainwindow/scan.py:245-261 | one pass of the `while` loop (collect finished threads, then start new ones) never drops a result already collected; `PollKeepsInv` and `PollProgresses` state the rest |
| OcrFanout.RunLoop | src/paperwork/frontend/mainwindow/scan.py:243-262 | the polling loop never drops a collected result; `RunLoopKeepsInv` and `AllFinishingEndsLoop` state its invariant and its termination |
| OcrFanout.RunLoopKeepsInv | src/paperwork/frontend/mainwindow/scan.py:243-262 | the invariant holds throughout the loop, and when it ends every angle was scored exactly once |
| OcrFanout.PollProgresses | src/paperwork/frontend/mainwindow/scan.py:243-262 | a poll in which every running thread has finished strictly lowers the remaining work |
| OcrFanout.AllFinishingEndsLoop | src/paperwork/frontend/mainwindow/scan.py:243-262 | if every thread finishes by the next poll, the loop ends within `Pending` polls: threads skipped in a pass are delayed, not lost |
| OcrFanout.Best | src/paperwork/frontend/mainwindow/scan.py:264-269 | the chosen result is recorded, no result scores higher, and it is the earliest recorded among the best |
| OcrFanout.SortDescending | src/paperwork/frontend/mainwindow/scan.py:265 | the sort is a permutation of the results |
| OcrFanout.Insert | src/paperwork/frontend/mainwindow/scan.py:265 | one insertion step of the `cmp` sort adds exactly its element; `SortDescendingSorted` and `BestHeadsSortedScores` state the order and stability |
| OcrFanout.SortDescendingSorted | src/paperwork/frontend/mainwindow/scan.py:265 | the sorted results are in non-increasing score order |
| OcrFanout.BestHeadsSortedScores | src/paperwork/frontend/mainwindow/scan.py:265-269 | the head of the stably sorted results is the earliest-recorded best one |
| OcrFanout.DoneLoopPicksBest | src/paperwork/frontend/mainwindow/scan.py:264-269 | after the loop the winner is one of the job's angles, carries its own score, and no angle scored better |
| OcrFanout.OcrDo | src/paperwork/frontend/mainwindow/scan.py:229-269 | the job fails at `self.imgs[0]` exactly when there are no angles; a completed job emits started, angles, one score per thread and done, each angle is scored once, and the emitted angle scores best |
| OcrFanout.ScoreEvents | src/paperwork/frontend/mainwindow/scan.py:252 | one `ocr-score` signal per collected result, in collection order, carrying its angle and score |
| OcrFanout.EveryThreadFinishingCompletes | src/paperwork/frontend/mainwindow/scan.py:243-262 | with at least one angle and twice as many polls as angles, all of which see every thread finished, the job completes |
| OcrFanout.UniqueBestWins | src/paperwork/frontend/mainwindow/scan.py:264-269 | an angle strictly better than every other is the one a completed job emits |
| OcrFanout.FourAnglesTwoThreads | src/paperwork/frontend/mainwindow/scan.py:229-269 | four angles scored 3, 7, 2, 5 with two threads: the job completes and emits angle 90 |
| ScanFlow.ScanLoop | src/paperwork/frontend/mainwindow/scan.py:67-82 | the chunks tile the lines contiguously from `last_line`, each non-empty; the loop is canceled exactly when it sees `can_run` cleared and finished exactly on `EOFError` |
| ScanFlow.ScanLoopReaches | src/paperwork/frontend/mainwindow/scan.py:67-82 | the chunks end at the largest line count reported before the loop ended, which was reported, or stay where they began |
| ScanFlow.ScanDo | src/paperwork/frontend/mainwindow/scan.py:59-88 | a scan starts with `scan-started` and `scan-info`, emits `scan-canceled` exactly when the loop head sees `can_run` cleared and `scan-done` exactly when the driver reached the end |
| ScanFlow.ScanChunksTileFromZero | src/paperwork/frontend/mainwindow/scan.py:67-76 | the chunks a scan emits tile its image from line 0 up to every line count the driver reported |
| ScanFlow.CanceledScanNeverDone | src/paperwork/frontend/mainwindow/scan.py:79-87 | a canceled scan never reports an image |
| ScanFlow.RelayOfScan | src/paperwork/frontend/mainwindow/scan.py:680-706 | the workflow turns a scan's signals into `scan-start` and then one `scan-done`: with the image, with `None` if canceled, or none while still scanning |
| ScanFlow.OnScanEvent | src/paperwork/frontend/mainwindow/scan.py:680-706 | each scan-job signal becomes at most one workflow signal, and `scan-start` comes only from `scan-started`; `RelayOfScan` states the whole relay |
| ScanFlow.Relay | src/paperwork/frontend/mainwindow/scan.py:680-706 | the relay of a sequence of scan-job signals, one `on_scan_*` handler per signal; no contract of its own, `RelayOfScan` states which signals come out |
| ScanFlow.RelayAtMostOnePerSignal | src/paperwork/frontend/mainwindow/scan.py:680-706 | each scan-job signal is relayed as at most one workflow signal |
| ScanFlow.Chainer | src/paperwork/frontend/mainwindow/scan.py:745-748 | OCR is requested for exactly the images that `scan-done` carries, never for `None` |
| ScanFlow.ScanAndOcr | src/paperwork/frontend/mainwindow/scan.py:736-751 | with a chainer serving its own scan only (the evident intent; see the findings below), scan-and-OCR requests OCR for the scanned image and nothing else, and only when the scan finished |
| ScanFlow.StopBeforeEndRequestsNoOcr | src/paperwork/frontend/mainwindow/scan.py:704-706 | a scan stopped before its end makes the workflow report `scan-done(None)` and no OCR is requested |
| ScanFlow.EndOfScanRequestsOneOcr | src/paperwork/frontend/mainwindow/scan.py:745-748 | with its chainer serving its own scan only, a scan that reaches its end requests exactly one OCR, of its image |
| ScanFlow.ChainersAsWritten | src/paperwork/frontend/mainwindow/scan.py:741-750 | no chainer requests nothing, and every image OCR is requested for was carried by a `scan-done` |
| ScanFlow.OneChainerAsWritten | src/paperwork/frontend/mainwindow/scan.py:741-750 | a single connected chainer requests exactly what `Chainer` does |
| ScanFlow.ChainersCoverEveryImage | src/paperwork/frontend/mainwindow/scan.py:745-748 | with at least one chainer connected, every image a `scan-done` carries is requested |
| ScanFlow.ScanRequestsAsWritten | src/paperwork/frontend/mainwindow/scan.py:741-748 | a scan on a workflow with n chainers connected requests n OCR jobs of its image if it finishes, and none otherwise |
| ScanFlow.ScanAndOcrAsWritten | src/paperwork/frontend/mainwindow/scan.py:736-751 | each call as written leaves one more chainer connected, so a call after n others requests n + 1 OCR jobs of a finished scan's image |
| ScanFlow.ChainersAccumulate | src/paperwork/frontend/mainwindow/scan.py:741-751 | on a new workflow the first scan-and-OCR requests one OCR, as intended; the second requests two where `ScanAndOcr` requests one, and a plain scan after them requests two |
| ScanFlow.ScanJob | src/paperwork/frontend/mainwindow/scan.py:51-52 | a scan job is stoppable, has priority 10 and belongs to its factory |
| ScanFlow.OcrJob | src/paperwork/frontend/mainwindow/scan.py:217-218 | an OCR job cannot be stopped, has priority 5 and belongs to its factory |
| ScanFlow.CancelStopsScanNotOcr | src/paperwork/frontend/mainwindow/scan.py:51-52 | cancelling a running scan asks it to stop; cancelling a running OCR job only leaves it running |
| ScanFlow.ScanDispatchedBeforeOcr | src/paperwork/frontend/mainwindow/scan.py:51-52 | with a scan job queued beside jobs of no higher priority, such as OCR jobs, in any order, a job of the scan priority is dispatched first, and it is the scan job when every other queued job ranks lower |
| GrayPacking.Sample | src/paperwork/backend/img/pdfgray.py:72 | `pval/64` is the 2-bit sample whose 64-wide band contains the gray level |
| GrayPacking.LoopBodyIsStep | src/paperwork/backend/img/pdfgray.py:70-78 | the loop body's shifts and ors compute the plain base-4 arithmetic of `Step` on every input |
| GrayPacking.LoopBody | src/paperwork/backend/img/pdfgray.py:70-78 | the loop body as written with `<<` and bitwise or; no contract of its own, `LoopBodyIsStep` proves it equal to the arithmetic step on every input |
| GrayPacking.ShiftInSample | src/paperwork/backend/img/pdfgray.py:71-72 | `(np << 2) \| s` appends the digit `s` to `np` |
| GrayPacking.ShiftLeftMultiplies | src/paperwork/backend/img/pdfgray.py:75 | `x << k` multiplies by 2^k |
| GrayPacking.AlignGroup | src/paperwork/backend/img/pdfgray.py:75 | shifting a group of m samples left by the remaining `shift_count` bits gives the left-aligned byte |
| GrayPacking.LastColumnIsMod | src/paperwork/backend/img/pdfgray.py:74 | the row-end test `p % width == width-1` holds exactly at the last pixel of each row |
| GrayPacking.EncodeIsPack | src/paperwork/backend/img/pdfgray.py:66-78 | the flat loop over all pixels emits exactly the row-by-row packing, with each row starting on a fresh byte |
| GrayPacking.Encode | src/paperwork/backend/img/pdfgray.py:66-78 | the encoder's single flat loop over all pixels; no contract of its own, `EncodeIsPack` proves it emits `Pack`'s bytes |
| GrayPacking.FieldsOfGroup | src/paperwork/backend/img/pdfgray.py:71-76 | the four 2-bit fields of a packed byte are its pixels' samples, the first in the highest bits, and zero past a short group |
| GrayPacking.PackRowLength | src/paperwork/backend/img/pdfgray.py:66-78 | a row of w pixels packs to ceil(w / 4) bytes |
| GrayPacking.PackRow | src/paperwork/backend/img/pdfgray.py:66-78 | the row-wise reference packing of one row; no contract of its own, `PackRowLength`, `PackRowRoundTrip` and `PaddingIsZero` state its length, its inverse and its padding |
| GrayPacking.Pack | src/paperwork/backend/img/pdfgray.py:66-78 | the row-wise reference packing of an image; no contract of its own, `PackLength` and `PackRoundTrip` state its length and its inverse |
| GrayPacking.PackRowRoundTrip | src/paperwork/backend/img/pdfgray.py:70-78 | unpacking a packed row gives every pixel's sample back |
| GrayPacking.PaddingIsZero | src/paperwork/backend/img/pdfgray.py:75 | the unused fields of a row's last byte are zero |
| GrayPacking.PackLength | src/paperwork/backend/img/pdfgray.py:66-78 | an image of width × height pixels packs to height · ceil(width / 4) bytes |
| GrayPacking.PackRoundTrip | src/paperwork/backend/img/pdfgray.py:66-78 | reading the packed image back row by row recovers every pixel's sample |
| PdfWriter.Write | src/paperwork/backend/img/pdfgray.py:18-20 | a write appends its text and keeps `ofs` equal to the number of characters written |
| PdfWriter.StartObject | src/paperwork/backend/img/pdfgray.py:15-17 | `start_object` records the current offset and returns the new object's 1-based number |
| PdfWriter.WriteKeepsValid | src/paperwork/backend/img/pdfgray.py:18-20 | appending never moves a recorded object header |
| PdfWriter.BeginObjectKeepsValid | src/paperwork/backend/img/pdfgray.py:96-97 | the offset `start_object` records is where that object's `n 0 obj` header is written |
| PdfWriter.ObjectKeepsValid | src/paperwork/backend/img/pdfgray.py:95-105 | a separator, a header and an object body keep every recorded offset on its own header |
| PdfWriter.Kids | src/paperwork/backend/img/pdfgray.py:51-52 | the page tree lists one reference per page |
| PdfWriter.ChooseEncoding | src/paperwork/backend/img/pdfgray.py:87-92 | the JPEG stream is used exactly when it is strictly shorter; the chosen stream is never longer than either |
| PdfWriter.WritePage | src/paperwork/backend/img/pdfgray.py:95-140 | a page adds three objects, and the numbers the page object gives its image and contents are the ones they receive |
| PdfWriter.CatalogBody | src/paperwork/backend/img/pdfgray.py:36-42 | the catalog object's text; no contract of its own, `WriteObjects` states that it names object 2 as the page tree |
| PdfWriter.PagesBody | src/paperwork/backend/img/pdfgray.py:46-56 | the page tree's text; no contract of its own, `WriteObjectsNumbers` states that its `/Kids` are exactly the page objects |
| PdfWriter.PageBody | src/paperwork/backend/img/pdfgray.py:96-105 | the page object's text; no contract of its own, `WritePage` states that its `/XObject` and `/Contents` name the two objects after it |
| PdfWriter.ImageBody | src/paperwork/backend/img/pdfgray.py:109-126 | the image object's text with the shorter encoding; no contract of its own, `ChooseEncoding` states the choice |
| PdfWriter.ContentBody | src/paperwork/backend/img/pdfgray.py:133-140 | the content stream object's text; no contract of its own, `WritePageKeepsValid` states that it keeps every offset on its header |
| PdfWriter.InfoBody | src/paperwork/backend/img/pdfgray.py:144-149 | the information dictionary's text; no contract of its own, `WriteObjects` states that it is object 3n+3 |
| PdfWriter.WritePageKeepsValid | src/paperwork/backend/img/pdfgray.py:95-140 | writing a page keeps every recorded offset on its header |
| PdfWriter.WritePages | src/paperwork/backend/img/pdfgray.py:58-140 | the page loop adds three objects per page |
| PdfWriter.WritePagesNumbers | src/paperwork/backend/img/pdfgray.py:58-140 | page j's objects are numbered consecutively, three per page, after the objects already written |
| PdfWriter.WriteObjects | src/paperwork/backend/img/pdfgray.py:27-149 | the catalog is object 1 and names the page tree as object 2, there is one kid per page, and the information dictionary is the last of 3·pages + 3 objects |
| PdfWriter.WriteObjectsNumbers | src/paperwork/backend/img/pdfgray.py:46-103 | page i is objects 3i+3 to 3i+5, and each `/Kids` reference is exactly its page object |
| PdfWriter.WriteObjectsValid | src/paperwork/backend/img/pdfgray.py:27-149 | every offset recorded for the file's objects is that of its own header |
| PdfWriter.WriteGrayPdf | src/paperwork/backend/img/pdfgray.py:22-172 | the file has 3·pages + 3 objects |
| PdfWriter.EntryReadsBack | src/paperwork/backend/img/pdfgray.py:159 | an entry with an offset below 10^10 is 20 characters and its first ten read back as the offset |
| PdfWriter.TableAfter | src/paperwork/backend/img/pdfgray.py:151-159 | a table written after the objects resolves entry k to the offset of object k+1's header |
| PdfWriter.FinishTable | src/paperwork/backend/img/pdfgray.py:151-172 | the finished file's table resolves every object |
| PdfWriter.XrefResolves | src/paperwork/backend/img/pdfgray.py:151-159 | in the written file, entry k of the table gives the offset of object k+1's header |
| PdfWriter.XrefHeadText | src/paperwork/backend/img/pdfgray.py:154-156 | the table head opens one subsection at object 0 of the given count, and its first entry is object 0's free entry |
| PdfWriter.TrailerStart | src/paperwork/backend/img/pdfgray.py:162-165 | the trailer opens with `trailer`, `<<` and its `/Size` line |
| PdfWriter.TrailerLines | src/paperwork/backend/img/pdfgray.py:162-172 | the trailer is eleven lines; `TrailerStart`, `TrailerEnd` and `TrailerReadsBack` state what they say |
| PdfWriter.FinishSize | src/paperwork/backend/img/pdfgray.py:151-165 | after the table head and one 20-character entry per object comes the trailer's `/Size`, which equals the table's declared count |
| PdfWriter.SizeMatchesTable | src/paperwork/backend/img/pdfgray.py:155-165 | in the written file, the table declares objects + 1 entries, the entries follow, and `/Size` right after them gives the same count |
| PdfWriter.TrailerEnd | src/paperwork/backend/img/pdfgray.py:170-172 | the trailer ends with `startxref`, the offset's numeral and `%%EOF` |
| PdfWriter.TrailerReadsBack | src/paperwork/backend/img/pdfgray.py:170-172 | whatever precedes it, a file ending in the trailer ends with `%%EOF` after a numeral that reads as the offset |
| PdfWriter.FinishEnd | src/paperwork/backend/img/pdfgray.py:151-172 | the finished file ends with the table's own offset |
| PdfWriter.Finish | src/paperwork/backend/img/pdfgray.py:151-172 | finishing the file keeps the objects and layout written before it; `FinishTable`, `FinishSize`, `FinishEnd` and `StartXrefReadsBack` state the table and trailer |
| PdfWriter.StartXrefReadsBack | src/paperwork/backend/img/pdfgray.py:153-172 | the written file ends with `%%EOF`, just after the table's offset written as a decimal numeral |

## Left out

- Threads, the condition variable, its waits and notifications, `join`, and
  lock release. Each critical section is one state transition; the
  interleavings are not modelled.
- `time.sleep` and the OCR polling interval. `multiprocessing.cpu_count()`
  is the parameter `maxThreads` and is assumed positive, as a CPU count is.
- GObject signals and `GLib.idle_add`. The signals a job emits are an event
  sequence, and the workflow's handlers are functions over it.
- Drawing: `ScanWorkflowDrawer` and every `drawer` call.
- Calibration cropping in `on_scan_done` (scan.py:690-699). Images are
  opaque, so the cropped image is the scanned one.
- `JobScan.stop`'s `_stop_wait` and `scan.cancel()` (scan.py:90-94). Stopping
  is the `Stopped` read step seen at the loop's head.
- The OCR engine and the spell checker (pyocr, `check_spelling`). Their
  results, or the fact that they raised, are parameters. OCR tool lookup and
  `sys.exit` in `JobFactoryOCR.make` are left out too.
- Image rotation and the rotated images carried by the OCR signals. Only
  the angles are modelled.
- PDF file I/O, `image.convert("L")`, JPEG and zlib compression: the pixels
  and both encodings are inputs.
- The random document id, which is a parameter. The `%.2f` and `%f`
  renderings of the page size are given strings, since floats are not
  modelled. Also the fixed 300 dpi and the unused `new_width` (pdfgray.py:66).
- `array('B')` overflow: every packed value is proved to be below 256.
- Jobs.Dispatch: the heap's choice among equal priorities is unspecified.
  This model pops the earliest queued of the highest-priority jobs. It also
  pops a highest-priority job after a removal, which the source's heap does
  not guarantee (see the finding on jobs.py:164). The heap's layout is not
  modelled.
- Jobs.DrainRunsByPriority: holds for the intended queue. After a removal
  breaks the source's heap, jobs can run out of priority order.
- Jobs.Stop: assumes the joined worker finishes the job it holds. If `stop`
  clears `running` between the worker's `heappop` (jobs.py:109) and its
  check at jobs.py:113, the worker returns with `_active_job` still set and
  the popped job never runs. That race is not modelled.
- OcrFanout.Fill: `dict.popitem` takes an arbitrary entry. This model takes
  the last.
- PdfWriter.XrefResolves: requires the table's offset below 10^10. Beyond
  that `%010u` writes more than 10 digits and no 20-character table exists.
  PdfWriter.SizeMatchesTable, PdfWriter.TableAfter, PdfWriter.FinishTable
  and PdfWriter.FinishSize have the same bound for the same reason.
- Defects that can only make the code crash are not modelled as crashes:
  - `itertools.counter` (jobs.py:28);
  - the parameter list `**kwargs, *args` (jobs.py:30);
  - `Threading` (jobs.py:93);
  - `_new_job_cond` (jobs.py:105);
  - `heapq.push` (jobs.py:152);
  - the double `release` after a refused `add` (jobs.py:149, 155);
  - `job` unbound in `cancel`'s log line (jobs.py:184-185), a `NameError`
    before `cancel` does anything;
  - `cancel_all`'s log line (jobs.py:190-191), whose two conversions get one
    value: a `TypeError` before `cancel_all` does anything.

  The models give these operations their evident meaning: a counter, a
  thread, the queue's condition, a heap push, one release, and log lines
  that format their values.
- Jobs.CancelMatching, Jobs.Cancel, Jobs.CancelAll: model the intended
  behaviour, with the log lines at jobs.py:165-166, 175-176 and 178-179
  formatting their values. As written, each of those lines has three
  conversions for two values, so `cancel_matching_jobs` raises `TypeError`
  whenever a queued job matches or the active job matches behind a
  non-empty queue. `JobsAsWritten` models those exceptions and the
  findings below list them.
- Jobs.CancelAll: as written, besides the `TypeError` at jobs.py:190-191,
  line 163 passes `job.factory` to a condition that reads `.factory` of
  its argument, and line 170 passes `None` when no job is active. Either
  raises `AttributeError`. The model compares each job's factory with the
  given one, and an absent active job matches nothing.
- ScanFlow.ScanAndOcr: models the chainer serving its own scan only. As
  written, chainers are never disconnected and pile up (see the findings
  below); `ScanFlow.ScanAndOcrAsWritten` models that.
- ScanFlow.EndOfScanRequestsOneOcr: "exactly one OCR" is the intended
  behaviour. As written it holds only for the first `scan_and_ocr` on a
  workflow (`ScanFlow.ChainersAccumulate`).
- The `schedule` method that scan.py calls on a scheduler (scan.py:677,
  717) is not in jobs.py. It is read as `add`.

## Findings

| source | as written | input that shows it | evidently intended | confidence | as-written member | corrected member |
|---|---|---|---|---|---|---|
| src/paperwork/frontend/jobs.py:165-166 | the log line after each removal has three conversions for two values, so `TypeError` follows the first removal and escapes `cancel_matching_jobs`, which catches only `ValueError` | queue `[a, b]` with both matching: `a` is removed, `TypeError` is raised, `b` stays queued | log the removal and go on sweeping | not executed | JobsAsWritten.SweepRemovesFirstMatch | Jobs.Keep |
| src/paperwork/frontend/jobs.py:162-164 | `remove` inside `for job in self._job_queue` shifts the list under the iterator | with the log line corrected, two adjacent queued jobs that both match: the second stays queued | every matching queued job is removed | not executed | JobsAsWritten.SweepSkipsNeighbour | Jobs.Keep |
| src/paperwork/frontend/jobs.py:163 | the condition is called on `job.factory`, but `cancel`'s condition compares with a job | any queued target of `cancel`: the queue is left unchanged | the condition is called on the job | not executed | JobsAsWritten.CancelLeavesTargetQueued | Jobs.Cancel |
| src/paperwork/frontend/jobs.py:170-179 | `can_stop`, `stop()` and both log lines use the loop variable `job`, not the active job, and both log lines raise `TypeError` | cancelling the active job with one stoppable job `q` queued: `q.stop()` is called, the active job is never asked to stop, and `TypeError` is raised (an empty queue raises `NameError`) | test and stop the active job, then return | not executed | JobsAsWritten.CancelStopsWrongJob | Jobs.CancelMatching |
| src/paperwork/frontend/jobs.py:164 | `list.remove` on the heap list breaks the heap property, and `heappop` (jobs.py:109) returns whatever sits at index 0 | the heap `[a, b, c]` with priorities 10, 5 and 8 loses `a`: `heappop` on `[b, c]` returns `b` while `c` waits | restore the heap after removing (`heapq.heapify`), so the highest priority runs first | not executed | JobsAsWritten.RemoveBreaksHeap | Jobs.Dispatch |
| src/paperwork/frontend/jobs.py:204-205 | `stop()` is called on any active job, and the base class's `stop` raises `NotImplementedError` | stopping while an unstoppable job (`JobOCR`) runs: `running` is cleared but `_thread` stays set, so `start` fails its assertion forever | only ask stoppable jobs to stop, as the comment at jobs.py:59-60 says | not executed | JobsAsWritten.StopStrandsScheduler | Jobs.Stop |
| src/paperwork/frontend/mainwindow/scan.py:741-750 | each `scan_and_ocr` connects a new chainer to `scan-done` and none is ever disconnected | a second `scan_and_ocr` on one workflow: its finished scan gets two OCR jobs, and every later `scan` gets OCR too | the chainer serves its own scan only | not executed | ScanFlow.ChainersAccumulate | ScanFlow.ScanAndOcr |
