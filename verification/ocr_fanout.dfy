/** The OCR job: it rotates the page by each candidate angle, runs one OCR
    worker thread per angle with at most `maxThreads` of them alive at a
    time, polls them for completion, and finally emits the angle whose text
    scored best.

    The worker threads, their timing and the polling sleep are not
    modelled. Each poll is given the set of angles whose threads have
    finished by the time the poll examines them; a whole run is given the
    sequence of those sets, one per poll. What a thread scores is the
    function `scoreOf` (see `OcrScore.RunThread` for how one thread scores). */
module OcrFanout {
  import opened Basics

  /** `JobFactoryOCR.make`: `range(0, nb_angles * 90, 90)`. */
  function Angles(n: int): (a: seq<int>)
    ensures |a| == if n > 0 then n else 0
    ensures forall i :: 0 <= i < |a| ==> a[i] == 90 * i
  {
    if n <= 0 then [] else Angles(n - 1) + [90 * (n - 1)]
  }

  /** The angles are distinct, so each one names exactly one rotated image
      of the job's `{angle: image}` dictionary. */
  lemma AnglesDistinct(n: int, i: int, k: int)
    requires 0 <= i < k < |Angles(n)|
    ensures Angles(n)[i] < Angles(n)[k]
  {
  }

  /** One entry of `scores`: the score and the angle of a finished thread. */
  datatype Scored = Scored(score: int, angle: int)

  function AnglesOf(scores: seq<Scored>): (a: seq<int>)
    ensures |a| == |scores| && forall i :: 0 <= i < |scores| ==> a[i] == scores[i].angle
  {
    seq(|scores|, i requires 0 <= i < |scores| => scores[i].angle)
  }

  function ScoresOf(scores: seq<Scored>): (a: seq<int>)
    ensures |a| == |scores| && forall i :: 0 <= i < |scores| ==> a[i] == scores[i].score
  {
    seq(|scores|, i requires 0 <= i < |scores| => scores[i].score)
  }

  lemma AnglesOfAppend(a: seq<Scored>, b: seq<Scored>)
    ensures AnglesOf(a + b) == AnglesOf(a) + AnglesOf(b)
  {
  }

  /** The `for thread in threads` pass of one poll. A finished thread is
      removed from the list and its result appended; as with any Python
      list changed while it is iterated, the thread that slides into the
      removed one's place is skipped until the next poll. `i` is the
      iterator's index. */
  function Collect(threads: seq<int>, finished: set<int>, scoreOf: int -> int, i: nat): (r: (seq<int>, seq<Scored>))
    ensures multiset(r.0) + multiset(AnglesOf(r.1)) == multiset(threads)
    ensures forall k :: 0 <= k < |r.1| ==> r.1[k].angle in finished && r.1[k].score == scoreOf(r.1[k].angle)
    ensures i < |threads| && threads[i] in finished ==> |r.1| > 0
    decreases |threads| - i
  {
    if i >= |threads| then (threads, [])
    else if threads[i] in finished then
      var t := threads[i];
      var left := threads[..i] + threads[i + 1..];
      RemoveAt(threads, i);
      var (alive, done) := Collect(left, finished, scoreOf, i + 1);
      AnglesOfCons(Scored(scoreOf(t), t), done);
      (alive, [Scored(scoreOf(t), t)] + done)
    else Collect(threads, finished, scoreOf, i + 1)
  }

  lemma RemoveAt(threads: seq<int>, i: nat)
    requires i < |threads|
    ensures multiset(threads) == multiset(threads[..i] + threads[i + 1..]) + multiset{threads[i]}
  {
    assert threads == threads[..i] + [threads[i]] + threads[i + 1..];
  }

  lemma AnglesOfCons(x: Scored, rest: seq<Scored>)
    ensures multiset(AnglesOf([x] + rest)) == multiset{x.angle} + multiset(AnglesOf(rest))
  {
    AnglesOfAppend([x], rest);
    assert AnglesOf([x]) == [x.angle];
  }

  /** The `while len(threads) < max_threads and len(self.imgs) > 0` loop:
      start threads on backlog angles until the pool is full or the backlog
      empty. `dict.popitem` takes an arbitrary entry; this model takes the
      last. */
  function Fill(backlog: seq<int>, inflight: seq<int>, maxThreads: nat): (r: (seq<int>, seq<int>))
    ensures multiset(r.0) + multiset(r.1) == multiset(backlog) + multiset(inflight)
    ensures |inflight| <= maxThreads ==> |r.1| <= maxThreads
    ensures |r.1| >= maxThreads || r.0 == []
    ensures |r.0| + |r.1| == |backlog| + |inflight| && |r.0| <= |backlog|
    ensures inflight == [] && backlog != [] && maxThreads > 0 ==> |r.0| < |backlog|
    decreases |backlog|
  {
    if |inflight| < maxThreads && |backlog| > 0 then
      var b := backlog[..|backlog| - 1];
      assert backlog == b + [backlog[|backlog| - 1]];
      Fill(b, inflight + [backlog[|backlog| - 1]], maxThreads)
    else (backlog, inflight)
  }

  /** The loop's state: angles not yet started, angles whose threads are
      alive, and the results collected so far, in collection order. */
  datatype Fanout = Fanout(backlog: seq<int>, inflight: seq<int>, scores: seq<Scored>)

  /** One iteration of the `while` loop: collect, then start threads. */
  function Poll(st: Fanout, finished: set<int>, maxThreads: nat, scoreOf: int -> int): (r: Fanout)
    ensures st.scores <= r.scores
  {
    var (alive, done) := Collect(st.inflight, finished, scoreOf, 0);
    var (backlog, inflight) := Fill(st.backlog, alive, maxThreads);
    Fanout(backlog, inflight, st.scores + done)
  }

  /** Every angle is in exactly one place, in-flight threads never exceed
      the bound, and every recorded score is the score of its angle. */
  ghost predicate Inv(st: Fanout, all: seq<int>, maxThreads: nat, scoreOf: int -> int)
  {
    && multiset(st.backlog) + multiset(st.inflight) + multiset(AnglesOf(st.scores)) == multiset(all)
    && |st.inflight| <= maxThreads
    && forall k :: 0 <= k < |st.scores| ==> st.scores[k].score == scoreOf(st.scores[k].angle)
  }

  lemma PollKeepsInv(st: Fanout, finished: set<int>, maxThreads: nat, scoreOf: int -> int, all: seq<int>)
    requires Inv(st, all, maxThreads, scoreOf)
    ensures Inv(Poll(st, finished, maxThreads, scoreOf), all, maxThreads, scoreOf)
  {
    var (alive, done) := Collect(st.inflight, finished, scoreOf, 0);
    AnglesOfAppend(st.scores, done);
  }

  /** The loop is over when nothing is left to start and nothing runs. */
  predicate Done(st: Fanout)
  {
    st.backlog == [] && st.inflight == []
  }

  /** The polling loop, one poll per entry of `schedule`, until it is done
      or the schedule runs out. */
  function RunLoop(st: Fanout, schedule: seq<set<int>>, maxThreads: nat, scoreOf: int -> int): (r: Fanout)
    ensures st.scores <= r.scores
    decreases |schedule|
  {
    if Done(st) || schedule == [] then st
    else RunLoop(Poll(st, schedule[0], maxThreads, scoreOf), schedule[1..], maxThreads, scoreOf)
  }

  /** Throughout the loop the bound holds and every angle is in one place;
      once the loop is done, every angle was started once and scored
      once. */
  lemma {:induction false} RunLoopKeepsInv(st: Fanout, schedule: seq<set<int>>, maxThreads: nat, scoreOf: int -> int, all: seq<int>)
    requires Inv(st, all, maxThreads, scoreOf)
    ensures Inv(RunLoop(st, schedule, maxThreads, scoreOf), all, maxThreads, scoreOf)
    ensures Done(RunLoop(st, schedule, maxThreads, scoreOf)) ==>
              multiset(AnglesOf(RunLoop(st, schedule, maxThreads, scoreOf).scores)) == multiset(all)
    decreases |schedule|
  {
    if !Done(st) && schedule != [] {
      PollKeepsInv(st, schedule[0], maxThreads, scoreOf, all);
      RunLoopKeepsInv(Poll(st, schedule[0], maxThreads, scoreOf), schedule[1..], maxThreads, scoreOf, all);
    }
  }

  /** Twice the backlog plus the threads in flight: every poll in which
      all running threads have finished lowers it. */
  function Pending(st: Fanout): nat
  {
    2 * |st.backlog| + |st.inflight|
  }

  lemma {:induction false} PollProgresses(st: Fanout, finished: set<int>, maxThreads: nat, scoreOf: int -> int)
    requires maxThreads > 0 && !Done(st)
    requires forall k :: 0 <= k < |st.inflight| ==> st.inflight[k] in finished
    ensures Pending(Poll(st, finished, maxThreads, scoreOf)) < Pending(st)
  {
    var (alive, done) := Collect(st.inflight, finished, scoreOf, 0);
    assert |alive| + |done| == |st.inflight| by {
      assert |multiset(alive)| + |multiset(AnglesOf(done))| == |multiset(st.inflight)|;
    }
    var (backlog, inflight) := Fill(st.backlog, alive, maxThreads);
    assert Poll(st, finished, maxThreads, scoreOf) == Fanout(backlog, inflight, st.scores + done);
    if st.inflight != [] {
      assert |done| > 0;
    }
  }

  /** When every thread has finished by the poll after it started, the loop
      is done after at most `Pending` polls: the skipped threads of a poll
      are only delayed, never lost. */
  lemma {:induction false} AllFinishingEndsLoop(st: Fanout, schedule: seq<set<int>>, maxThreads: nat, scoreOf: int -> int, all: seq<int>)
    requires maxThreads > 0 && Inv(st, all, maxThreads, scoreOf)
    requires |schedule| >= Pending(st)
    requires forall k, i :: 0 <= k < |schedule| && 0 <= i < |all| ==> all[i] in schedule[k]
    ensures Done(RunLoop(st, schedule, maxThreads, scoreOf))
    decreases Pending(st)
  {
    if !Done(st) {
      var next := Poll(st, schedule[0], maxThreads, scoreOf);
      forall k | 0 <= k < |st.inflight|
        ensures st.inflight[k] in schedule[0]
      {
        assert st.inflight[k] in multiset(st.inflight);
        assert st.inflight[k] in multiset(all);
        var i :| 0 <= i < |all| && all[i] == st.inflight[k];
        assert all[i] in schedule[0];
      }
      PollProgresses(st, schedule[0], maxThreads, scoreOf);
      PollKeepsInv(st, schedule[0], maxThreads, scoreOf, all);
      AllFinishingEndsLoop(next, schedule[1..], maxThreads, scoreOf, all);
    }
  }

  /** `scores[0]` after `scores.sort(cmp=lambda x, y: cmp(y[0], x[0]))`:
      a best score, and since Python's sort is stable, the first recorded
      among equally good ones. */
  function Best(scores: seq<Scored>): (b: Scored)
    requires |scores| > 0
    ensures b in scores
    ensures forall k :: 0 <= k < |scores| ==> scores[k].score <= b.score
    ensures exists k :: IsFirstMax(ScoresOf(scores), k) && scores[k] == b
  {
    var k := FirstMax(ScoresOf(scores));
    scores[k]
  }

  /** Insert `x` into a list sorted by descending score, after every entry
      that scores at least as well. */
  function Insert(sorted: seq<Scored>, x: Scored): (r: seq<Scored>)
    ensures multiset(r) == multiset(sorted) + multiset{x}
    ensures |r| == |sorted| + 1
  {
    if sorted == [] then [x]
    else if x.score > sorted[0].score then [x] + sorted
    else
      assert sorted == [sorted[0]] + sorted[1..];
      [sorted[0]] + Insert(sorted[1..], x)
  }

  predicate SortedDescending(s: seq<Scored>)
  {
    forall i, k :: 0 <= i < k < |s| ==> s[i].score >= s[k].score
  }

  /** No entry scores above `v`. */
  predicate AtMost(s: seq<Scored>, v: int)
  {
    forall k :: 0 <= k < |s| ==> s[k].score <= v
  }

  lemma {:induction false} InsertAtMost(sorted: seq<Scored>, x: Scored, v: int)
    requires AtMost(sorted, v) && x.score <= v
    ensures AtMost(Insert(sorted, x), v)
    decreases |sorted|
  {
    if sorted != [] && x.score <= sorted[0].score {
      InsertAtMost(sorted[1..], x, v);
    }
  }

  /** Inserting keeps the list sorted. */
  lemma {:induction false} InsertSorted(sorted: seq<Scored>, x: Scored)
    requires SortedDescending(sorted)
    ensures SortedDescending(Insert(sorted, x))
    decreases |sorted|
  {
    if sorted != [] && x.score <= sorted[0].score {
      var tail := sorted[1..];
      InsertSorted(tail, x);
      InsertAtMost(tail, x, sorted[0].score);
      var rest := Insert(tail, x);
      assert Insert(sorted, x) == [sorted[0]] + rest;
    }
  }

  /** A stable sort by descending score (insertion sort), standing for
      Python's `list.sort` with the reversed comparison. */
  function SortDescending(s: seq<Scored>): (r: seq<Scored>)
    ensures multiset(r) == multiset(s) && |r| == |s|
  {
    if s == [] then []
    else
      assert s == s[..|s| - 1] + [s[|s| - 1]];
      Insert(SortDescending(s[..|s| - 1]), s[|s| - 1])
  }

  /** The sort leaves the scores in descending order. */
  lemma {:induction false} SortDescendingSorted(s: seq<Scored>)
    ensures SortedDescending(SortDescending(s))
    decreases |s|
  {
    if s != [] {
      SortDescendingSorted(s[..|s| - 1]);
      InsertSorted(SortDescending(s[..|s| - 1]), s[|s| - 1]);
    }
  }

  /** `Best` is what the job reads at the head of its sorted scores. */
  lemma {:induction false} BestHeadsSortedScores(scores: seq<Scored>)
    requires |scores| > 0
    ensures SortDescending(scores)[0] == Best(scores)
  {
    var n := |scores|;
    if n > 1 {
      var prefix, y := scores[..n - 1], scores[n - 1];
      BestHeadsSortedScores(prefix);
      BestSnoc(scores);
      InsertHead(SortDescending(prefix), y);
    }
  }

  /** A later entry wins only by scoring strictly better. */
  lemma BestSnoc(scores: seq<Scored>)
    requires |scores| > 1
    ensures var prefix, y := scores[..|scores| - 1], scores[|scores| - 1];
      Best(scores) == if y.score > Best(prefix).score then y else Best(prefix)
  {
    var n := |scores|;
    assert ScoresOf(scores)[..n - 1] == ScoresOf(scores[..n - 1]);
  }

  lemma InsertHead(sorted: seq<Scored>, x: Scored)
    requires |sorted| > 0
    ensures Insert(sorted, x)[0] == if x.score > sorted[0].score then x else sorted[0]
  {
  }

  /** Once the loop is done, the winner is one of the job's angles, and
      no angle scored better. */
  lemma DoneLoopPicksBest(st: Fanout, all: seq<int>, maxThreads: nat, scoreOf: int -> int)
    requires Inv(st, all, maxThreads, scoreOf) && Done(st) && |all| > 0
    ensures |st.scores| > 0
    ensures Best(st.scores).angle in all
    ensures Best(st.scores).score == scoreOf(Best(st.scores).angle)
    ensures forall a :: a in all ==> scoreOf(a) <= Best(st.scores).score
  {
    assert multiset(AnglesOf(st.scores)) == multiset(all);
    assert all[0] in multiset(AnglesOf(st.scores));
    var best := Best(st.scores);
    forall a | a in all
      ensures scoreOf(a) <= best.score
    {
      assert a in multiset(AnglesOf(st.scores));
      var k :| 0 <= k < |st.scores| && AnglesOf(st.scores)[k] == a;
    }
    var k :| 0 <= k < |st.scores| && st.scores[k] == best;
    assert AnglesOf(st.scores)[k] in multiset(all);
  }

  /** What the OCR job emits: `ocr-started`, `ocr-angles`, one `ocr-score`
      per finished thread and `ocr-done` with the winning angle. The
      images and line boxes these signals carry are not modelled. */
  datatype OcrEvent = OcrStarted | OcrAngles(angles: seq<int>) | OcrScore(angle: int, score: int) | OcrDone(angle: int)

  /** How `do()` ended: `self.imgs[0]` raised `KeyError` (no angle 0), the
      polling loop had not finished when the schedule ran out, or the
      winner was emitted. */
  datatype OcrOutcome = NoAngleZero | Polling | Completed(best: Scored)

  /** The signals emitted, the results collected, and how `do()` ended. */
  datatype OcrRun = OcrRun(events: seq<OcrEvent>, scores: seq<Scored>, outcome: OcrOutcome)

  function ScoreEvents(scores: seq<Scored>): (e: seq<OcrEvent>)
    ensures |e| == |scores|
    ensures forall k :: 0 <= k < |scores| ==> e[k] == OcrScore(scores[k].angle, scores[k].score)
  {
    seq(|scores|, k requires 0 <= k < |scores| => OcrScore(scores[k].angle, scores[k].score))
  }

  /** `JobOCR.do` for the job `JobFactoryOCR.make(img, nbAngles)` builds. */
  function OcrDo(nbAngles: int, maxThreads: nat, schedule: seq<set<int>>, scoreOf: int -> int): (r: OcrRun)
    requires maxThreads > 0
    ensures nbAngles <= 0 <==> r.outcome == NoAngleZero
    ensures r.outcome.Completed? ==>
              var angles := Angles(nbAngles);
              && r.outcome.best.angle in angles
              && r.outcome.best.score == scoreOf(r.outcome.best.angle)
              && (forall a :: a in angles ==> scoreOf(a) <= r.outcome.best.score)
              && multiset(AnglesOf(r.scores)) == multiset(angles)
              && r.events == [OcrStarted, OcrAngles(angles)] + ScoreEvents(r.scores) + [OcrDone(r.outcome.best.angle)]
  {
    var angles := Angles(nbAngles);
    if nbAngles <= 0 then OcrRun([], [], NoAngleZero)
    else
      var start := Fanout(angles, [], []);
      var st := RunLoop(start, schedule, maxThreads, scoreOf);
      RunLoopKeepsInv(start, schedule, maxThreads, scoreOf, angles);
      var events := [OcrStarted, OcrAngles(angles)] + ScoreEvents(st.scores);
      if !Done(st) then OcrRun(events, st.scores, Polling)
      else
        DoneLoopPicksBest(st, angles, maxThreads, scoreOf);
        var best := Best(st.scores);
        OcrRun(events + [OcrDone(best.angle)], st.scores, Completed(best))
  }

  /** If every thread has finished by the poll after it was started, and
      there are enough polls, the job completes. */
  lemma EveryThreadFinishingCompletes(nbAngles: int, maxThreads: nat, schedule: seq<set<int>>, scoreOf: int -> int)
    requires nbAngles > 0 && maxThreads > 0
    requires |schedule| >= 2 * nbAngles
    requires forall k, i :: 0 <= k < |schedule| && 0 <= i < nbAngles ==> 90 * i in schedule[k]
    ensures OcrDo(nbAngles, maxThreads, schedule, scoreOf).outcome.Completed?
  {
    var angles := Angles(nbAngles);
    var start := Fanout(angles, [], []);
    assert Inv(start, angles, maxThreads, scoreOf);
    forall k, i | 0 <= k < |schedule| && 0 <= i < |angles|
      ensures angles[i] in schedule[k]
    {
      assert angles[i] == 90 * i;
    }
    AllFinishingEndsLoop(start, schedule, maxThreads, scoreOf, angles);
  }

  /** When one angle scores strictly better than every other, a completed
      job emits exactly that angle. */
  lemma UniqueBestWins(nbAngles: int, maxThreads: nat, schedule: seq<set<int>>, scoreOf: int -> int, a: int)
    requires maxThreads > 0 && OcrDo(nbAngles, maxThreads, schedule, scoreOf).outcome.Completed?
    requires a in Angles(nbAngles)
    requires forall b :: b in Angles(nbAngles) && b != a ==> scoreOf(b) < scoreOf(a)
    ensures OcrDo(nbAngles, maxThreads, schedule, scoreOf).outcome.best == Scored(scoreOf(a), a)
  {
  }

  /** Scores 3, 7, 2 and 5 for the angles 0, 90, 180 and 270. */
  function ExampleScore(angle: int): int
  {
    if angle == 0 then 3 else if angle == 90 then 7 else if angle == 180 then 2 else 5
  }

  /** Four angles scored 3, 7, 2 and 5, at most two threads at a time, and
      every thread finished by the poll after it started: the job completes
      and the angle scored 7 wins. */
  lemma FourAnglesTwoThreads(schedule: seq<set<int>>)
    requires |schedule| >= 8
    requires forall k :: 0 <= k < |schedule| ==> {0, 90, 180, 270} <= schedule[k]
    ensures OcrDo(4, 2, schedule, ExampleScore).outcome == Completed(Scored(7, 90))
  {
    FourAngles();
    forall k, i | 0 <= k < |schedule| && 0 <= i < 4
      ensures 90 * i in schedule[k]
    {
      assert 90 * i in {0, 90, 180, 270};
    }
    EveryThreadFinishingCompletes(4, 2, schedule, ExampleScore);
    ExampleWinner(schedule);
  }

  lemma FourAngles()
    ensures Angles(4) == [0, 90, 180, 270]
  {
  }

  /** Among the scores 3, 7, 2 and 5, a completed run emits angle 90. */
  lemma ExampleWinner(schedule: seq<set<int>>)
    requires OcrDo(4, 2, schedule, ExampleScore).outcome.Completed?
    ensures OcrDo(4, 2, schedule, ExampleScore).outcome.best == Scored(7, 90)
  {
    ExampleBestIsUnique();
    UniqueBestWins(4, 2, schedule, ExampleScore, 90);
  }

  lemma ExampleBestIsUnique()
    ensures 90 in Angles(4)
    ensures forall b :: b in Angles(4) && b != 90 ==> ExampleScore(b) < ExampleScore(90)
  {
    FourAngles();
  }
}
