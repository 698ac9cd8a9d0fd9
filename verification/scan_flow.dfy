/** The scan job's read loop and the workflow that chains a finished scan
    into an OCR job. The scanner driver is not modelled: what each pass of
    the loop observes is an input sequence of steps, and images are opaque. */
module ScanFlow {
  import opened Basics
  import opened Jobs

  /** The scan job class: it can be stopped, and it outranks OCR. */
  const ScanPriority := 10
  const ScanCanStop := true

  /** The OCR job class: it cannot be stopped. */
  const OcrPriority := 5
  const OcrCanStop := false

  /** An image produced by the scanner, left uninterpreted. */
  type Image = nat

  /** What one pass of the read loop observes. `Lines(n)`: `read()` returned
      and the driver reports `n` lines available so far. `EndOfScan`: `read()`
      raised `EOFError`. `Stopped`: `stop` has cleared `can_run`, which the
      loop sees at its head. */
  datatype ReadStep = Lines(available: int) | EndOfScan | Stopped

  /** The scan job's signals. A chunk is named by the line range it covers:
      `get_image(first, next)` returns lines `first` up to, not including,
      `next`. */
  datatype ScanEvent =
    | ScanStarted
    | ScanInfo(width: int, height: int)
    | ScanChunk(first: int, next: int)
    | ScanDone(img: Image)
    | ScanCanceled

  /** `Scanning`: the steps ran out while the loop was still reading. */
  datatype ScanOutcome = Scanning | Canceled | Finished

  /** Number of leading steps that are reads reporting lines, i.e. the
      passes before the loop ends. */
  function Live(steps: seq<ReadStep>): (k: nat)
    ensures k <= |steps|
    ensures forall i :: 0 <= i < k ==> steps[i].Lines?
    ensures k < |steps| ==> !steps[k].Lines?
  {
    if steps == [] || !steps[0].Lines? then 0 else 1 + Live(steps[1..])
  }

  /** The chunks tile the lines from `from` on: each covers a non-empty
      range, and each starts where the previous one ended. */
  predicate TilesFrom(chunks: seq<ScanEvent>, from: int)
  {
    && (forall i :: 0 <= i < |chunks| ==> chunks[i].ScanChunk? && chunks[i].first < chunks[i].next)
    && (|chunks| > 0 ==> chunks[0].first == from)
    && (forall i :: 0 <= i < |chunks| - 1 ==> chunks[i].next == chunks[i + 1].first)
  }

  /** The line the tiling reaches. */
  function TileEnd(chunks: seq<ScanEvent>, from: int): int
    requires TilesFrom(chunks, from)
  {
    if chunks == [] then from else chunks[|chunks| - 1].next
  }

  /** The `while self.can_run` loop from the point where `last_line` is
      `lastLine`: a chunk is emitted only when the driver reports more lines
      than have been handed out. */
  function ScanLoop(steps: seq<ReadStep>, lastLine: int): (r: (seq<ScanEvent>, ScanOutcome))
    ensures TilesFrom(r.0, lastLine)
    ensures r.1 == Scanning <==> Live(steps) == |steps|
    ensures r.1 == Canceled <==> Live(steps) < |steps| && steps[Live(steps)] == Stopped
    ensures r.1 == Finished <==> Live(steps) < |steps| && steps[Live(steps)] == EndOfScan
  {
    if steps == [] then ([], Scanning)
    else match steps[0]
      case Stopped => ([], Canceled)
      case EndOfScan => ([], Finished)
      case Lines(n) =>
        var rest := ScanLoop(steps[1..], if n > lastLine then n else lastLine);
        if n > lastLine then ([ScanChunk(lastLine, n)] + rest.0, rest.1) else rest
  }

  /** The chunks reach exactly the largest line count the driver reported
      before the loop ended, or stay at `lastLine` if none was larger. */
  lemma {:induction false} ScanLoopReaches(steps: seq<ReadStep>, lastLine: int)
    ensures var e := TileEnd(ScanLoop(steps, lastLine).0, lastLine);
            && lastLine <= e
            && (forall i :: 0 <= i < Live(steps) ==> steps[i].available <= e)
            && (e == lastLine || exists i :: 0 <= i < Live(steps) && steps[i] == Lines(e))
  {
    if steps != [] && steps[0].Lines? {
      var n := steps[0].available;
      var next := if n > lastLine then n else lastLine;
      ScanLoopReaches(steps[1..], next);
      var rest := ScanLoop(steps[1..], next);
      var e := TileEnd(rest.0, next);
      assert TileEnd(ScanLoop(steps, lastLine).0, lastLine) == e;
      assert Live(steps) == 1 + Live(steps[1..]);
      forall i | 1 <= i < Live(steps)
        ensures steps[i].available <= e
      {
        assert steps[i] == steps[1..][i - 1];
      }
      if e != next {
        var i :| 0 <= i < Live(steps[1..]) && steps[1..][i] == Lines(e);
        assert steps[i + 1] == steps[1..][i];
      }
    }
  }

  /** What `JobScan.do` emits, and how it ended. */
  datatype ScanRun = ScanRun(events: seq<ScanEvent>, outcome: ScanOutcome)

  /** The signal that ends a scan: none while it is still reading. */
  function Closing(outcome: ScanOutcome, img: Image): seq<ScanEvent>
  {
    match outcome
    case Scanning => []
    case Canceled => [ScanCanceled]
    case Finished => [ScanDone(img)]
  }

  /** `JobScan.do`. The expected size and the image the scan session holds
      at the end come from the driver and are parameters. */
  function ScanDo(width: int, height: int, steps: seq<ReadStep>, img: Image): (r: ScanRun)
    ensures |r.events| >= 2 && r.events[..2] == [ScanStarted, ScanInfo(width, height)]
    ensures ScanCanceled in r.events <==> r.outcome == Canceled
    ensures ScanDone(img) in r.events <==> r.outcome == Finished
    ensures r.outcome == Canceled <==> Live(steps) < |steps| && steps[Live(steps)] == Stopped
    ensures r.outcome == Finished <==> Live(steps) < |steps| && steps[Live(steps)] == EndOfScan
  {
    var (chunks, outcome) := ScanLoop(steps, 0);
    assert forall i :: 0 <= i < |chunks| ==> chunks[i].ScanChunk?;
    var tail := Closing(outcome, img);
    var events := [ScanStarted, ScanInfo(width, height)] + chunks + tail;
    assert events[..2] == [ScanStarted, ScanInfo(width, height)];
    assert forall i :: 0 <= i < |events| - |tail| ==> !events[i].ScanCanceled? && !events[i].ScanDone? by {
      forall i | 0 <= i < |events| - |tail|
        ensures !events[i].ScanCanceled? && !events[i].ScanDone?
      {
        if i >= 2 {
          assert events[i] == chunks[i - 2];
        }
      }
    }
    ScanRun(events, outcome)
  }

  /** The chunk events of a scan, in the order emitted. */
  function Chunks(events: seq<ScanEvent>): (r: seq<ScanEvent>)
    ensures forall i :: 0 <= i < |r| ==> r[i].ScanChunk?
  {
    if events == [] then []
    else if events[0].ScanChunk? then [events[0]] + Chunks(events[1..])
    else Chunks(events[1..])
  }

  /** The chunks a scan emits tile the image from line 0 up to the largest
      line count the driver reported before the loop ended. */
  lemma ScanChunksTileFromZero(width: int, height: int, steps: seq<ReadStep>, img: Image)
    ensures TilesFrom(Chunks(ScanDo(width, height, steps, img).events), 0)
    ensures var c := Chunks(ScanDo(width, height, steps, img).events);
            forall i :: 0 <= i < Live(steps) ==> steps[i].available <= TileEnd(c, 0)
  {
    ScanDoChunks(width, height, steps, img);
    ScanLoopReaches(steps, 0);
  }

  /** The chunk events of a scan are exactly those of its loop. */
  lemma ScanDoChunks(width: int, height: int, steps: seq<ReadStep>, img: Image)
    ensures Chunks(ScanDo(width, height, steps, img).events) == ScanLoop(steps, 0).0
  {
    var r := ScanDo(width, height, steps, img);
    ScanDoShape(width, height, steps, img);
    ClosingHasNoChunks(r.outcome, img);
    ChunksBetween(ScanInfo(width, height), ScanLoop(steps, 0).0, Closing(r.outcome, img));
  }

  lemma ClosingHasNoChunks(outcome: ScanOutcome, img: Image)
    ensures Chunks(Closing(outcome, img)) == []
  {
  }

  /** Chunk events framed by two signals that are not chunks. */
  lemma ChunksBetween(info: ScanEvent, chunks: seq<ScanEvent>, tail: seq<ScanEvent>)
    requires !info.ScanChunk?
    requires forall i :: 0 <= i < |chunks| ==> chunks[i].ScanChunk?
    requires Chunks(tail) == []
    ensures Chunks([ScanStarted, info] + (chunks + tail)) == chunks
  {
    var pre := [ScanStarted, info];
    assert Chunks(pre) == [] by {
      assert pre[1..] == [info] && [info][1..] == [];
      assert Chunks([info]) == [];
    }
    ChunksOfConcat(pre, chunks + tail);
    ChunksOfConcat(chunks, tail);
    AllChunks(chunks);
  }

  /** A scan's events are the opening pair, the loop's chunks and the
      closing signal. */
  lemma ScanDoShape(width: int, height: int, steps: seq<ReadStep>, img: Image)
    ensures var r := ScanDo(width, height, steps, img);
            r.events == [ScanStarted, ScanInfo(width, height)] + (ScanLoop(steps, 0).0 + Closing(r.outcome, img))
            && r.outcome == ScanLoop(steps, 0).1
  {
  }

  lemma {:induction false} ChunksOfConcat(a: seq<ScanEvent>, b: seq<ScanEvent>)
    ensures Chunks(a + b) == Chunks(a) + Chunks(b)
  {
    if a != [] {
      assert (a + b)[0] == a[0] && (a + b)[1..] == a[1..] + b;
      ChunksOfConcat(a[1..], b);
      if a[0].ScanChunk? {
        assert Chunks(a + b) == [a[0]] + (Chunks(a[1..]) + Chunks(b));
      }
    } else {
      assert a + b == b;
    }
  }

  lemma {:induction false} AllChunks(a: seq<ScanEvent>)
    requires forall i :: 0 <= i < |a| ==> a[i].ScanChunk?
    ensures Chunks(a) == a
  {
    if a != [] {
      AllChunks(a[1..]);
    }
  }

  /** A canceled scan never reports an image, and a scan that reports an
      image was not canceled. */
  lemma CanceledScanNeverDone(width: int, height: int, steps: seq<ReadStep>, img: Image)
    ensures ScanCanceled in ScanDo(width, height, steps, img).events ==> ScanDone(img) !in ScanDo(width, height, steps, img).events
  {
  }

  /** The scan workflow's own signals: `scan-start`, and `scan-done` with an
      image or with `None` for a canceled scan. */
  datatype WorkflowEvent = WfScanStart | WfScanDone(img: Option<Image>)

  /** How the workflow relays one scan-job signal. Calibration cropping of
      the finished image is not modelled, so the image passes unchanged. */
  function OnScanEvent(e: ScanEvent): (r: seq<WorkflowEvent>)
    ensures |r| <= 1
    ensures r == [WfScanStart] <==> e.ScanStarted?
  {
    match e
    case ScanStarted => [WfScanStart]
    case ScanInfo(_, _) => []
    case ScanChunk(_, _) => []
    case ScanDone(img) => [WfScanDone(Some(img))]
    case ScanCanceled => [WfScanDone(None)]
  }

  function Relay(events: seq<ScanEvent>): seq<WorkflowEvent>
  {
    if events == [] then [] else OnScanEvent(events[0]) + Relay(events[1..])
  }

  /** Each scan-job signal is relayed as at most one workflow signal. */
  lemma {:induction false} RelayAtMostOnePerSignal(events: seq<ScanEvent>)
    ensures |Relay(events)| <= |events|
  {
    if events != [] {
      RelayAtMostOnePerSignal(events[1..]);
    }
  }

  /** The scan-to-OCR chainer: an OCR job is requested for each `scan-done`
      that carries an image, and for none that carries `None`. */
  function Chainer(wf: seq<WorkflowEvent>): (r: seq<Image>)
    ensures forall img :: img in r <==> WfScanDone(Some(img)) in wf
    ensures |r| <= |wf|
  {
    if wf == [] then []
    else
      var rest := Chainer(wf[1..]);
      if wf[0].WfScanDone? && wf[0].img.Some? then [wf[0].img.value] + rest else rest
  }

  /** `scan_and_ocr` as its design evidently intends: the chainer it
      connects serves its own scan only. Returns the images OCR is
      requested for. */
  function ScanAndOcr(width: int, height: int, steps: seq<ReadStep>, img: Image): (r: seq<Image>)
    ensures r == [] <==> ScanDo(width, height, steps, img).outcome != Finished
    ensures r != [] ==> r == [img]
  {
    var run := ScanDo(width, height, steps, img);
    RelayOfScan(width, height, steps, img);
    var r := Chainer(Relay(run.events));
    assert Relay(run.events)[1..] == Relayed(run.outcome, img);
    assert r == Chainer(Relayed(run.outcome, img));
    r
  }

  /** The workflow signal that a scan's closing signal becomes. */
  function Relayed(outcome: ScanOutcome, img: Image): seq<WorkflowEvent>
  {
    match outcome
    case Scanning => []
    case Canceled => [WfScanDone(None)]
    case Finished => [WfScanDone(Some(img))]
  }

  /** A scan's events relay to `scan-start`, followed by one `scan-done`
      when the scan ended: `None` if it was canceled, the image if not. */
  lemma RelayOfScan(width: int, height: int, steps: seq<ReadStep>, img: Image)
    ensures var r := ScanDo(width, height, steps, img);
            Relay(r.events) == [WfScanStart] + Relayed(r.outcome, img)
  {
    var r := ScanDo(width, height, steps, img);
    ScanDoShape(width, height, steps, img);
    RelayOfParts(width, height, ScanLoop(steps, 0).0, r.outcome, img);
  }

  lemma RelayOfParts(width: int, height: int, chunks: seq<ScanEvent>, outcome: ScanOutcome, img: Image)
    requires forall i :: 0 <= i < |chunks| ==> chunks[i].ScanChunk?
    ensures Relay([ScanStarted, ScanInfo(width, height)] + (chunks + Closing(outcome, img)))
            == [WfScanStart] + Relayed(outcome, img)
  {
    RelayOfOpening(width, height);
    RelayOfBody(chunks, outcome, img);
    RelayAfterOpening([ScanStarted, ScanInfo(width, height)], chunks + Closing(outcome, img));
  }

  /** The chunks relay to nothing, so only the closing signal remains. */
  lemma RelayOfBody(chunks: seq<ScanEvent>, outcome: ScanOutcome, img: Image)
    requires forall i :: 0 <= i < |chunks| ==> chunks[i].ScanChunk?
    ensures Relay(chunks + Closing(outcome, img)) == Relayed(outcome, img)
  {
    RelayOfConcat(chunks, Closing(outcome, img));
    RelayOfChunks(chunks);
    RelayOfClosing(outcome, img);
  }

  lemma RelayAfterOpening(head: seq<ScanEvent>, rest: seq<ScanEvent>)
    requires Relay(head) == [WfScanStart]
    ensures Relay(head + rest) == [WfScanStart] + Relay(rest)
  {
    RelayOfConcat(head, rest);
  }

  lemma RelayOfOpening(width: int, height: int)
    ensures Relay([ScanStarted, ScanInfo(width, height)]) == [WfScanStart]
  {
    RelayOfConcat([ScanStarted], [ScanInfo(width, height)]);
    RelayOne(ScanStarted);
    RelayOne(ScanInfo(width, height));
  }

  lemma RelayOfClosing(outcome: ScanOutcome, img: Image)
    ensures Relay(Closing(outcome, img)) == Relayed(outcome, img)
  {
    var tail := Closing(outcome, img);
    if tail != [] {
      RelayOne(tail[0]);
      assert tail == [tail[0]];
    }
  }

  lemma RelayOne(e: ScanEvent)
    ensures Relay([e]) == OnScanEvent(e)
  {
    assert [e][1..] == [];
  }

  lemma {:induction false} RelayOfConcat(a: seq<ScanEvent>, b: seq<ScanEvent>)
    ensures Relay(a + b) == Relay(a) + Relay(b)
  {
    if a != [] {
      assert (a + b)[0] == a[0] && (a + b)[1..] == a[1..] + b;
      RelayOfConcat(a[1..], b);
      assert Relay(a + b) == OnScanEvent(a[0]) + (Relay(a[1..]) + Relay(b));
    } else {
      assert a + b == b;
    }
  }

  lemma {:induction false} RelayOfChunks(a: seq<ScanEvent>)
    requires forall i :: 0 <= i < |a| ==> a[i].ScanChunk?
    ensures Relay(a) == []
  {
    if a != [] {
      RelayOfChunks(a[1..]);
    }
  }

  /** Stopping the scan before the driver reports the end: the workflow
      reports `scan-done(None)` and no OCR job is requested. */
  lemma StopBeforeEndRequestsNoOcr(width: int, height: int, steps: seq<ReadStep>, img: Image)
    requires Live(steps) < |steps| && steps[Live(steps)] == Stopped
    ensures WfScanDone(None) in Relay(ScanDo(width, height, steps, img).events)
    ensures ScanAndOcr(width, height, steps, img) == []
  {
    RelayOfScan(width, height, steps, img);
  }

  /** The scan reaching its end: exactly one OCR job, for the scanned image,
      when its chainer serves that scan only. */
  lemma EndOfScanRequestsOneOcr(width: int, height: int, steps: seq<ReadStep>, img: Image)
    requires Live(steps) < |steps| && steps[Live(steps)] == EndOfScan
    ensures ScanAndOcr(width, height, steps, img) == [img]
  {
  }

  /** `n` copies of one image. */
  function Copies(img: Image, n: nat): (r: seq<Image>)
    ensures |r| == n && forall i :: 0 <= i < n ==> r[i] == img
  {
    if n == 0 then [] else [img] + Copies(img, n - 1)
  }

  /** The `scan-done` handlers as written. Each `scan_and_ocr` connects a
      new chainer and none is ever disconnected, so with `n` chainers
      connected every `scan-done` that carries an image requests `n` OCR
      jobs of it. */
  function ChainersAsWritten(n: nat, wf: seq<WorkflowEvent>): (r: seq<Image>)
    ensures n == 0 ==> r == []
    ensures forall i :: 0 <= i < |r| ==> WfScanDone(Some(r[i])) in wf
  {
    if wf == [] then []
    else
      var rest := ChainersAsWritten(n, wf[1..]);
      if wf[0].WfScanDone? && wf[0].img.Some? then Copies(wf[0].img.value, n) + rest else rest
  }

  /** A single connected chainer requests what the intended `Chainer`
      does. */
  lemma {:induction false} OneChainerAsWritten(wf: seq<WorkflowEvent>)
    ensures ChainersAsWritten(1, wf) == Chainer(wf)
  {
    if wf != [] {
      OneChainerAsWritten(wf[1..]);
      if wf[0].WfScanDone? && wf[0].img.Some? {
        assert Copies(wf[0].img.value, 1) == [wf[0].img.value];
      }
    }
  }

  /** With at least one chainer connected, every image a `scan-done`
      carries gets OCR. */
  lemma {:induction false} ChainersCoverEveryImage(n: nat, wf: seq<WorkflowEvent>, img: Image)
    requires n > 0 && WfScanDone(Some(img)) in wf
    ensures img in ChainersAsWritten(n, wf)
  {
    if wf[0] == WfScanDone(Some(img)) {
      assert Copies(img, n)[0] == img;
    } else {
      assert WfScanDone(Some(img)) in wf[1..];
      ChainersCoverEveryImage(n, wf[1..], img);
    }
  }

  /** A plain `scan` on a workflow with `chainers` chainers connected, as
      written: the images OCR is requested for. */
  function ScanRequestsAsWritten(chainers: nat, width: int, height: int, steps: seq<ReadStep>, img: Image): (r: seq<Image>)
    ensures r == if ScanDo(width, height, steps, img).outcome == Finished then Copies(img, chainers) else []
  {
    var run := ScanDo(width, height, steps, img);
    RelayOfScan(width, height, steps, img);
    var wf := Relay(run.events);
    assert wf == [WfScanStart] + Relayed(run.outcome, img);
    assert wf[1..] == Relayed(run.outcome, img);
    assert ChainersAsWritten(chainers, Relayed(run.outcome, img))
      == (if run.outcome == Finished then Copies(img, chainers) else []) by {
      if run.outcome == Finished {
        assert Relayed(run.outcome, img)[1..] == [];
      }
    }
    ChainersAsWritten(chainers, wf)
  }

  /** `scan_and_ocr` as written on a workflow with `chainers` chainers
      already connected: it connects one more, then scans. Returns the
      number now connected and the images OCR is requested for. */
  function ScanAndOcrAsWritten(chainers: nat, width: int, height: int, steps: seq<ReadStep>, img: Image): (r: (nat, seq<Image>))
    ensures r.0 == chainers + 1
    ensures ScanDo(width, height, steps, img).outcome == Finished ==> r.1 == Copies(img, chainers + 1)
    ensures ScanDo(width, height, steps, img).outcome != Finished ==> r.1 == []
  {
    (chainers + 1, ScanRequestsAsWritten(chainers + 1, width, height, steps, img))
  }

  /** Chainers pile up as written. On a new workflow, the first
      `scan_and_ocr` requests one OCR of its image, like the intended
      `ScanAndOcr`. The second, scanning to its end, requests two OCR jobs
      of its image where one is intended, and a plain `scan` after both
      still requests two. */
  lemma ChainersAccumulate(width: int, height: int, steps: seq<ReadStep>, img1: Image, img2: Image, img3: Image)
    requires Live(steps) < |steps| && steps[Live(steps)] == EndOfScan
    ensures var (n1, r1) := ScanAndOcrAsWritten(0, width, height, steps, img1);
      && r1 == [img1] == ScanAndOcr(width, height, steps, img1)
      && var (n2, r2) := ScanAndOcrAsWritten(n1, width, height, steps, img2);
      && r2 == [img2, img2] && ScanAndOcr(width, height, steps, img2) == [img2]
      && ScanRequestsAsWritten(n2, width, height, steps, img3) == [img3, img3]
  {
    assert Copies(img2, 2) == [img2, img2];
    assert Copies(img3, 2) == [img3, img3];
  }

  /** A scan job and an OCR job as their factories make them. */
  function ScanJob(f: JobFactory, handle: Handle): (r: (JobFactory, Job))
    ensures MadeBy(r.1, f) && r.1.priority == ScanPriority && r.1.canStop
  {
    Make(f, JobOrder(handle, ScanPriority, ScanCanStop))
  }

  function OcrJob(f: JobFactory, handle: Handle): (r: (JobFactory, Job))
    ensures MadeBy(r.1, f) && r.1.priority == OcrPriority && !r.1.canStop
  {
    Make(f, JobOrder(handle, OcrPriority, OcrCanStop))
  }

  /** Cancelling a running scan asks it to stop; cancelling a running OCR
      job only leaves it running. */
  lemma CancelStopsScanNotOcr(s: Scheduler, f: JobFactory, handle: Handle)
    ensures var job := ScanJob(f, handle).1;
            s.active == Some(job) ==> Cancel(s, job).1 == StopRequested(job)
    ensures var job := OcrJob(f, handle).1;
            s.active == Some(job) ==> Cancel(s, job).1 == CannotStop(job)
  {
  }

  /** A scan job queued on a running scheduler beside jobs of no higher
      priority, such as OCR jobs, in any order: a job of the scan priority
      is dispatched first, and it is the scan job when every other queued
      job ranks lower. */
  lemma ScanDispatchedBeforeOcr(s: Scheduler, scan: Job)
    requires s.running && scan in s.queue && scan.priority == ScanPriority
    requires forall j :: j in s.queue ==> j.priority <= ScanPriority
    ensures Dispatch(s).Run? && Dispatch(s).job.priority == ScanPriority
    ensures (forall j :: j in s.queue && j != scan ==> j.priority < ScanPriority) ==> Dispatch(s).job == scan
  {
    var r := Dispatch(s);
    assert Compare(r.job, scan) <= 0;
  }
}
