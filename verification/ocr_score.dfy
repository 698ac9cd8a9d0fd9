/** How one OCR worker thread turns the engine's line boxes into text and
    scores how plausible that text is: a dictionary-based score first, a
    "lucky guess" word count second, and zero last, each tried only when
    the previous one raised. The OCR engine and the spell checker are not
    modelled; their results are parameters. */
module OcrScore {
  import opened Basics

  /** A line box of the OCR result; only its text is used here. */
  datatype LineBox = LineBox(content: string)

  function TotalLength(boxes: seq<LineBox>): nat
  {
    if boxes == [] then 0 else |boxes[0].content| + TotalLength(boxes[1..])
  }

  /** `__boxes_to_txt`: each line's content followed by a newline. */
  function BoxesToText(boxes: seq<LineBox>): (txt: string)
    ensures |txt| == TotalLength(boxes) + |boxes|
    ensures boxes != [] ==> txt[|txt| - 1] == '\n'
  {
    if boxes == [] then "" else boxes[0].content + "\n" + BoxesToText(boxes[1..])
  }

  /** Index of the first newline of `t`, or `|t|` when there is none. */
  function NewlineIndex(t: string): (k: nat)
    ensures k <= |t|
    ensures forall i :: 0 <= i < k ==> t[i] != '\n'
    ensures k < |t| ==> t[k] == '\n'
  {
    if t == [] then 0
    else if t[0] == '\n' then 0
    else 1 + NewlineIndex(t[1..])
  }

  /** The lines of a text, each one read up to its newline. */
  function LinesOf(t: string): seq<string>
    decreases |t|
  {
    if t == [] then []
    else
      var k := NewlineIndex(t);
      if k == |t| then [t] else [t[..k]] + LinesOf(t[k + 1..])
  }

  function Contents(boxes: seq<LineBox>): (r: seq<string>)
    ensures |r| == |boxes| && forall i :: 0 <= i < |boxes| ==> r[i] == boxes[i].content
  {
    seq(|boxes|, i requires 0 <= i < |boxes| => boxes[i].content)
  }

  predicate NoNewline(s: string)
  {
    forall i :: 0 <= i < |s| ==> s[i] != '\n'
  }

  /** Reading the text back line by line recovers every box's content, as
      long as no content holds a newline of its own. */
  lemma {:induction false} BoxesToTextRoundTrip(boxes: seq<LineBox>)
    requires forall i :: 0 <= i < |boxes| ==> NoNewline(boxes[i].content)
    ensures LinesOf(BoxesToText(boxes)) == Contents(boxes)
  {
    if boxes != [] {
      var c := boxes[0].content;
      var rest := BoxesToText(boxes[1..]);
      assert BoxesToText(boxes) == c + "\n" + rest;
      FirstLine(c, rest);
      BoxesToTextRoundTrip(boxes[1..]);
      assert Contents(boxes) == [c] + Contents(boxes[1..]);
    }
  }

  /** A line without a newline, then a newline, reads back as that line
      followed by the lines of what comes after. */
  lemma FirstLine(c: string, rest: string)
    requires NoNewline(c)
    ensures LinesOf(c + "\n" + rest) == [c] + LinesOf(rest)
  {
    var t := c + "\n" + rest;
    assert t[|c|] == '\n';
    assert forall i :: 0 <= i < |c| ==> t[i] == c[i];
    assert NewlineIndex(t) == |c|;
    assert t[..|c|] == c;
    assert t[|c| + 1..] == rest;
  }

  /** Occurrences of `c` in `s`. */
  function Count(s: string, c: char): nat
  {
    if s == [] then 0 else (if s[0] == c then 1 else 0) + Count(s[1..], c)
  }

  /** `s.split(" ")`: the pieces between single spaces, empty pieces
      included, so there is always one more piece than there are spaces. */
  function SplitOnSpace(s: string): (r: seq<string>)
    ensures |r| == Count(s, ' ') + 1
    ensures forall i :: 0 <= i < |r| ==> ' ' !in r[i]
  {
    if s == [] then [""]
    else
      var rest := SplitOnSpace(s[1..]);
      if s[0] == ' ' then [""] + rest
      else
        assert ' ' !in rest[0];
        [[s[0]] + rest[0]] + rest[1..]
  }

  /** `" ".join(ws)`. */
  function JoinWithSpace(ws: seq<string>): string
    requires |ws| > 0
  {
    if |ws| == 1 then ws[0] else ws[0] + " " + JoinWithSpace(ws[1..])
  }

  /** Splitting, then joining, gives the text back. */
  lemma {:induction false} SplitThenJoin(s: string)
    ensures JoinWithSpace(SplitOnSpace(s)) == s
  {
    if s != [] {
      SplitThenJoin(s[1..]);
      var rest := SplitOnSpace(s[1..]);
      if s[0] == ' ' {
        assert SplitOnSpace(s) == [""] + rest;
        assert JoinWithSpace([""] + rest) == "" + " " + JoinWithSpace(rest);
        assert s == [s[0]] + s[1..];
      } else {
        var r := SplitOnSpace(s);
        assert r == [[s[0]] + rest[0]] + rest[1..];
        if |rest| == 1 {
          assert JoinWithSpace(r) == [s[0]] + rest[0];
        } else {
          assert r[1..] == rest[1..];
          assert JoinWithSpace(rest) == rest[0] + " " + JoinWithSpace(rest[1..]);
        }
        assert s == [s[0]] + s[1..];
      }
    }
  }

  /** Joining space-free pieces, then splitting, gives the pieces back. */
  lemma {:induction false} JoinThenSplit(ws: seq<string>)
    requires |ws| > 0 && forall i :: 0 <= i < |ws| ==> ' ' !in ws[i]
    ensures SplitOnSpace(JoinWithSpace(ws)) == ws
    decreases |ws|, |ws[0]|
  {
    if |ws| == 1 {
      SplitSpaceFree(ws[0]);
    } else if ws[0] == [] {
      JoinThenSplit(ws[1..]);
      assert JoinWithSpace(ws) == " " + JoinWithSpace(ws[1..]);
      SplitSpaceHead(JoinWithSpace(ws[1..]));
      assert ws == [""] + ws[1..];
    } else {
      var w := ws[0];
      var ws' := [w[1..]] + ws[1..];
      assert ' ' !in w[1..];
      assert forall i :: 1 <= i < |ws'| ==> ws'[i] == ws[i];
      JoinThenSplit(ws');
      JoinFirstChar(ws);
      SplitCharHead(w[0], JoinWithSpace(ws'));
      assert w == [w[0]] + w[1..];
      assert ws == [[w[0]] + ws'[0]] + ws'[1..];
    }
  }

  lemma SplitSpaceHead(x: string)
    ensures SplitOnSpace(" " + x) == [""] + SplitOnSpace(x)
  {
    assert (" " + x)[1..] == x;
  }

  lemma SplitCharHead(c: char, x: string)
    requires c != ' '
    ensures SplitOnSpace([c] + x) == [[c] + SplitOnSpace(x)[0]] + SplitOnSpace(x)[1..]
  {
    assert ([c] + x)[1..] == x;
  }

  /** Joining words whose first is not empty starts with that word's first
      character. */
  lemma JoinFirstChar(ws: seq<string>)
    requires |ws| > 1 && ws[0] != []
    ensures JoinWithSpace(ws) == [ws[0][0]] + JoinWithSpace([ws[0][1..]] + ws[1..])
  {
    var w := ws[0];
    var ws' := [w[1..]] + ws[1..];
    assert ws'[1..] == ws[1..];
    assert w == [w[0]] + w[1..];
  }

  lemma {:induction false} SplitSpaceFree(w: string)
    requires ' ' !in w
    ensures SplitOnSpace(w) == [w]
  {
    if w != [] {
      assert ' ' !in w[1..];
      SplitSpaceFree(w[1..]);
      assert w == [w[0]] + w[1..];
    }
  }

  predicate IsAsciiLetter(c: char)
  {
    ('a' <= c <= 'z') || ('A' <= c <= 'Z')
  }

  predicate AllLetters(w: string)
  {
    forall i :: 0 <= i < |w| ==> IsAsciiLetter(w[i])
  }

  /** `re.match(r'^[a-zA-Z]{4,}$', w)`: four or more ASCII letters. Without
      the multi-line flag `$` also matches just before a newline that ends
      the string, so one trailing newline is admitted. */
  predicate IsWord(w: string)
  {
    || (|w| >= 4 && AllLetters(w))
    || (|w| >= 5 && w[|w| - 1] == '\n' && AllLetters(w[..|w| - 1]))
  }

  /** A piece with a newline anywhere but at its end is never a word. */
  lemma InnerNewlineIsNoWord(w: string, i: int)
    requires 0 <= i < |w| - 1 && w[i] == '\n'
    ensures !IsWord(w)
  {
    assert !IsAsciiLetter(w[i]);
    assert |w| >= 5 ==> w[..|w| - 1][i] == w[i];
  }

  function CountWords(ws: seq<string>): (n: nat)
    ensures n <= |ws|
  {
    if ws == [] then 0 else (if IsWord(ws[0]) then 1 else 0) + CountWords(ws[1..])
  }

  /** `__compute_ocr_score_without_spell_checking`: the text, unchanged, and
      the number of space-separated pieces that are words. */
  function LuckyGuess(txt: string): (r: (string, nat))
    ensures r.0 == txt
    ensures r.1 <= Count(txt, ' ') + 1
  {
    (txt, CountWords(SplitOnSpace(txt)))
  }

  /** Any space-free pieces joined by single spaces: the score is the
      number of pieces that are words. */
  lemma LuckyGuessScoresPieces(ws: seq<string>)
    requires |ws| > 0 && forall i :: 0 <= i < |ws| ==> ' ' !in ws[i]
    ensures LuckyGuess(JoinWithSpace(ws)).1 == CountWords(ws)
  {
    JoinThenSplit(ws);
  }

  /** Words joined by single spaces each score one point. */
  lemma {:induction false} LuckyGuessCountsWords(ws: seq<string>)
    requires |ws| > 0 && forall i :: 0 <= i < |ws| ==> |ws[i]| >= 4 && AllLetters(ws[i])
    ensures LuckyGuess(JoinWithSpace(ws)).1 == |ws|
  {
    assert forall i :: 0 <= i < |ws| ==> ' ' !in ws[i];
    LuckyGuessScoresPieces(ws);
    AllWordsCount(ws);
  }

  lemma {:induction false} AllWordsCount(ws: seq<string>)
    requires forall i :: 0 <= i < |ws| ==> IsWord(ws[i])
    ensures CountWords(ws) == |ws|
  {
    if ws != [] {
      AllWordsCount(ws[1..]);
    }
  }

  /** The scoring methods, in the order they are tried. */
  datatype ScoreMethod = SpellChecker | LuckyGuessMethod | NoScore

  const ScoreMethods: seq<ScoreMethod> := [SpellChecker, LuckyGuessMethod, NoScore]

  /** The first attempt that did not raise; `None` marks one that raised. */
  function FirstSuccess(attempts: seq<Option<int>>): (r: Option<nat>)
    ensures r.Some? ==> r.value < |attempts| && attempts[r.value].Some?
    ensures r.Some? ==> forall i :: 0 <= i < r.value ==> attempts[i].None?
    ensures r.None? <==> forall i :: 0 <= i < |attempts| ==> attempts[i].None?
  {
    if attempts == [] then None
    else if attempts[0].Some? then Some(0)
    else match FirstSuccess(attempts[1..])
      case None => None
      case Some(k) => Some(k + 1)
  }

  /** What a finished `_ImgOCRThread` holds: its score (initially -1), its
      line boxes (initially none) and the scoring method that produced the score. */
  datatype ThreadResult = ThreadResult(score: int, boxes: Option<seq<LineBox>>, scoredBy: Option<ScoreMethod>)

  /** `_ImgOCRThread.run`. `ocr` is what the OCR engine returned for the
      rotated image, `None` when it raised; `spelling` is the score the
      spell checker gave the text, `None` when it raised. */
  function RunThread(ocr: Option<seq<LineBox>>, spelling: Option<int>): (r: ThreadResult)
    ensures ocr.None? ==> r == ThreadResult(-1, None, None)
    ensures ocr.Some? ==> r.boxes == ocr
    ensures ocr.Some? && spelling.Some? ==> r.scoredBy == Some(SpellChecker) && r.score == spelling.value
    ensures ocr.Some? && spelling.None? ==> r.scoredBy == Some(LuckyGuessMethod)
    ensures ocr.Some? && spelling.None? ==> r.score == LuckyGuess(BoxesToText(ocr.value)).1
    ensures r.scoredBy != Some(NoScore)
  {
    match ocr
    case None => ThreadResult(-1, None, None)
    case Some(boxes) =>
      var txt := BoxesToText(boxes);
      var attempts := [spelling, Some(LuckyGuess(txt).1), Some(0)];
      var k := FirstSuccess(attempts);
      assert attempts[1].Some?;
      assert k.Some? && k.value <= 1;
      ThreadResult(attempts[k.value].value, ocr, Some(ScoreMethods[k.value]))
  }

  /** The score is -1 exactly when the OCR engine itself failed, provided
      the spell checker never answers -1. */
  lemma FailedOcrOnlyScoresMinusOne(ocr: Option<seq<LineBox>>, spelling: Option<int>)
    requires spelling != Some(-1)
    ensures RunThread(ocr, spelling).score == -1 <==> ocr.None?
  {
  }
}
