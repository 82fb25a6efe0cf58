/**
 The size pass of `DocumentChunker` (`_split_by_size` in
 `deepwiki/indexer.py`): a window of `chunk_size` characters slides over the
 text; before a cut that is not at the end of the text it backs up to the
 last paragraph break, else to the last line break, found strictly after the
 window start; each piece is stripped; the next window opens `chunk_overlap`
 characters before the cut.

 The loop is not guaranteed to move forward: a cut within `chunk_overlap`
 characters of the start moves the start back or leaves it in place, and a
 start below zero is read by Python as counting from the end of the text. The
 loop is therefore modelled with explicit fuel, one unit per window: `None`
 means it did not stop within the fuel given.
 */
module Windows {
  import opened Wrappers
  import opened Text
  import opened Slicing

  /** The end of the window opening at `start`, after backing up to a break. */
  function WindowEnd(text: string, size: int, start: int): (end: int)
    ensures end == start + size || (end == -1 && start < -1) || (start < end && OccursAt(text, "\n", end))
  {
    var end := start + size;
    if end < |text| then
      var paragraphBreak := RFind(text, "\n\n", start, end);
      if paragraphBreak > start then
        if paragraphBreak >= 0 then
          ParagraphBreakChars(text, paragraphBreak);
          paragraphBreak
        else
          paragraphBreak
      else
        var newline := RFind(text, "\n", start, end);
        if newline > start then newline else end
    else
      end
  }

  lemma NewlineChar(text: string, k: int)
    ensures OccursAt(text, "\n", k) <==> 0 <= k < |text| && text[k] == '\n'
  {
    if 0 <= k < |text| {
      assert text[k..k + 1] == [text[k]];
    }
  }

  lemma ParagraphBreakChars(text: string, k: int)
    requires OccursAt(text, "\n\n", k)
    ensures text[k] == '\n' && text[k + 1] == '\n' && OccursAt(text, "\n", k)
  {
    assert text[k] == text[k..k + 2][0];
    assert text[k + 1] == text[k..k + 2][1];
    NewlineChar(text, k);
  }

  predicate IsStripped(s: string) {
    s == [] || (!IsSpace(s[0]) && !IsSpace(s[|s| - 1]))
  }

  /** One window: the stripped piece it emits and where the next window opens. */
  datatype Window = Window(piece: string, next: int)

  /** The window opening at `start`. */
  function Step(text: string, size: int, overlap: int, start: int): (w: Window)
    ensures IsStripped(w.piece)
  {
    var end := WindowEnd(text, size, start);
    Window(Strip(Slice(text, start, end)), end - overlap)
  }

  /** The windows of one text, as a step function. */
  function Stepper(text: string, size: int, overlap: int): int -> Window {
    start => Step(text, size, overlap, start)
  }

  /**
   The shape of the `while start < n` loop from `start` on, for any step,
   with `fuel` windows at most.
   */
  function Loop(step: int -> Window, n: int, start: int, fuel: nat): (r: Option<seq<string>>)
    ensures r.Some? ==> (|r.value| == 0 <==> start >= n)
    decreases fuel
  {
    if start >= n then Some([])
    else if fuel == 0 then None
    else
      match Loop(step, n, step(start).next, fuel - 1)
      case None => None
      case Some(rest) => Some([step(start).piece] + rest)
  }

  /** The `while start < len(text)` loop of `_split_by_size` from `start` on. */
  function SizeLoop(text: string, size: int, overlap: int, start: int, fuel: nat): Option<seq<string>> {
    Loop(Stepper(text, size, overlap), |text|, start, fuel)
  }

  /** `_split_by_size(text)` with at most `fuel` windows. */
  function SplitBySize(text: string, size: int, overlap: int, fuel: nat): Option<seq<string>> {
    SizeLoop(text, size, overlap, 0, fuel)
  }

  // ================================================================ the cut

  /** `sub` occurs at `k`, strictly after `start` and wholly inside the window `[start, start + size)`. */
  predicate BreakIn(text: string, sub: string, start: int, size: int, k: int) {
    start < k && k + |sub| <= start + size && OccursAt(text, sub, k)
  }

  /**
   For a start inside the text: a window reaching the end of the text is not
   shortened; otherwise the cut is the last paragraph break strictly after the
   start and wholly inside the window, else the last line break strictly after
   the start, else the raw boundary `start + size`.
   */
  lemma WindowCut(text: string, size: int, start: int)
    requires 0 <= start && 0 <= size
    ensures start + size >= |text| ==> WindowEnd(text, size, start) == start + size
    ensures (start + size < |text| && exists k :: BreakIn(text, "\n\n", start, size, k)) ==>
      (&& BreakIn(text, "\n\n", start, size, WindowEnd(text, size, start))
       && forall k :: WindowEnd(text, size, start) < k ==> !BreakIn(text, "\n\n", start, size, k))
    ensures (&& start + size < |text|
             && (forall k :: !BreakIn(text, "\n\n", start, size, k))
             && (exists k :: BreakIn(text, "\n", start, size, k))) ==>
      (&& BreakIn(text, "\n", start, size, WindowEnd(text, size, start))
       && forall k :: WindowEnd(text, size, start) < k ==> !BreakIn(text, "\n", start, size, k))
    ensures (&& start + size < |text|
             && (forall k :: !BreakIn(text, "\n\n", start, size, k))
             && (forall k :: !BreakIn(text, "\n", start, size, k))) ==>
      WindowEnd(text, size, start) == start + size
  {
    if start + size < |text| {
      var n := |text|;
      assert Clamp(start, n) == start;
      assert Clamp(start + size, n) == start + size;
      var pb := RFind(text, "\n\n", start, start + size);
      var nl := RFind(text, "\n", start, start + size);
      forall k | BreakIn(text, "\n\n", start, size, k) ensures k <= pb {
      }
      forall k | BreakIn(text, "\n", start, size, k) ensures k <= nl {
      }
      assert pb > start ==> BreakIn(text, "\n\n", start, size, pb);
      assert nl > start ==> BreakIn(text, "\n", start, size, nl);
    }
  }

  /** A window whose end stays at or above zero is at most `size` long in raw indices. */
  lemma WindowBounded(text: string, size: int, start: int)
    requires 0 <= start + size
    ensures WindowEnd(text, size, start) <= start + size
  {
  }

  /** The raw slice of a window is at most `size` characters, for any start not below `-1 - size`. */
  lemma WindowSliceBounded(text: string, size: int, start: int)
    requires 0 <= size && -1 - size <= start
    ensures |Slice(text, start, WindowEnd(text, size, start))| <= size
  {
    var e := WindowEnd(text, size, start);
    var n := |text|;
    var a := Clamp(start, n);
    var b := Clamp(start + size, n);
    assert b - a <= size;
    if e == start + size {
    } else if e == -1 {
    } else {
      assert 0 <= e < n;
      assert e < b;
    }
  }

  /**
   With `0 <= overlap <= size` a window opening at or above `-1 - size` emits
   at most `size` characters and its successor opens at or above `-1 - size`.
   */
  lemma StepBounded(text: string, size: int, overlap: int, start: int)
    requires 0 <= overlap <= size && -1 - size <= start
    ensures |Step(text, size, overlap, start).piece| <= size
    ensures -1 - size <= Step(text, size, overlap, start).next
  {
    WindowSliceBounded(text, size, start);
  }

  /** Every piece is at most `size` characters. */
  predicate AllWithin(pieces: seq<string>, size: int) {
    forall i :: 0 <= i < |pieces| ==> |pieces[i]| <= size
  }

  /** Every piece has no whitespace at either end. */
  predicate AllStripped(pieces: seq<string>) {
    forall i :: 0 <= i < |pieces| ==> IsStripped(pieces[i])
  }

  // ================================================================ the loop, for any step

  /** A step that keeps its starts at or above `lo` and its pieces within `size` yields pieces within `size`. */
  lemma {:induction false} LoopBounded(step: int -> Window, n: int, size: int, lo: int, start: int, fuel: nat)
    requires forall s :: lo <= s ==> |step(s).piece| <= size && lo <= step(s).next
    requires lo <= start
    requires Loop(step, n, start, fuel).Some?
    ensures AllWithin(Loop(step, n, start, fuel).value, size)
    decreases fuel
  {
    if start < n {
      LoopBounded(step, n, size, lo, step(start).next, fuel - 1);
    }
  }

  /** A step whose pieces are stripped yields stripped pieces. */
  lemma {:induction false} LoopStripped(step: int -> Window, n: int, start: int, fuel: nat)
    requires forall s :: IsStripped(step(s).piece)
    requires Loop(step, n, start, fuel).Some?
    ensures AllStripped(Loop(step, n, start, fuel).value)
    decreases fuel
  {
    if start < n {
      LoopStripped(step, n, step(start).next, fuel - 1);
    }
  }

  /** More fuel never changes a finished run. */
  lemma {:induction false} LoopFuelMonotone(step: int -> Window, n: int, start: int, fuel: nat, more: nat)
    requires fuel <= more
    requires Loop(step, n, start, fuel).Some?
    ensures Loop(step, n, start, more) == Loop(step, n, start, fuel)
    decreases fuel
  {
    if start < n {
      LoopFuelMonotone(step, n, step(start).next, fuel - 1, more - 1);
    }
  }

  /** A window whose successor opens where it opened repeats forever: the loop never stops. */
  lemma {:induction false} LoopStalls(step: int -> Window, n: int, start: int, fuel: nat)
    requires start < n && step(start).next == start
    ensures Loop(step, n, start, fuel).None?
    decreases fuel
  {
    if fuel > 0 {
      LoopStalls(step, n, start, fuel - 1);
    }
  }

  /** A step that always moves forward stops within `n - start` windows. */
  lemma {:induction false} LoopAdvances(step: int -> Window, n: int, start: int, fuel: nat)
    requires forall s :: start <= s < n ==> s < step(s).next
    requires n - start <= fuel
    ensures Loop(step, n, start, fuel).Some?
    decreases fuel
  {
    if start < n {
      LoopAdvances(step, n, step(start).next, fuel - 1);
    }
  }

  // ================================================================ the size pass

  /** With `0 <= overlap <= size` no piece is longer than `size`. */
  lemma SplitBySizeBounded(text: string, size: int, overlap: int, fuel: nat)
    requires 0 <= overlap <= size
    requires SplitBySize(text, size, overlap, fuel).Some?
    ensures AllWithin(SplitBySize(text, size, overlap, fuel).value, size)
  {
    var step := Stepper(text, size, overlap);
    forall s | -1 - size <= s ensures |step(s).piece| <= size && -1 - size <= step(s).next {
      StepBounded(text, size, overlap, s);
    }
    LoopBounded(step, |text|, size, -1 - size, 0, fuel);
  }

  /** Every piece is stripped; the run is empty exactly when the text is. */
  lemma SplitBySizeStripped(text: string, size: int, overlap: int, fuel: nat)
    requires SplitBySize(text, size, overlap, fuel).Some?
    ensures AllStripped(SplitBySize(text, size, overlap, fuel).value)
    ensures SplitBySize(text, size, overlap, fuel).value == [] <==> text == []
  {
    LoopStripped(Stepper(text, size, overlap), |text|, 0, fuel);
  }

  /** More fuel never changes a finished size pass. */
  lemma SplitBySizeFuelMonotone(text: string, size: int, overlap: int, fuel: nat, more: nat)
    requires fuel <= more
    requires SplitBySize(text, size, overlap, fuel).Some?
    ensures SplitBySize(text, size, overlap, more) == SplitBySize(text, size, overlap, fuel)
  {
    LoopFuelMonotone(Stepper(text, size, overlap), |text|, 0, fuel, more);
  }

  /**
   A line break exactly `overlap` characters after the start, with no later
   line break in the window and no paragraph break, stalls the loop.
   */
  lemma CutAtOverlapStalls(text: string, size: int, overlap: int, start: int, fuel: nat)
    requires 0 <= start && 0 < overlap < size && start + size < |text|
    requires text[start + overlap] == '\n'
    requires forall k :: start + overlap < k < start + size ==> text[k] != '\n'
    requires forall k :: !BreakIn(text, "\n\n", start, size, k)
    ensures SizeLoop(text, size, overlap, start, fuel).None?
  {
    WindowCut(text, size, start);
    NewlineChar(text, start + overlap);
    assert BreakIn(text, "\n", start, size, start + overlap);
    var e := WindowEnd(text, size, start);
    NewlineChar(text, e);
    assert e == start + overlap;
    LoopStalls(Stepper(text, size, overlap), |text|, start, fuel);
  }

  /** Without line breaks a window opening at or after index 0 is never shortened. */
  lemma NoBreaksWindow(text: string, size: int, start: int)
    requires '\n' !in text && 0 <= start
    ensures WindowEnd(text, size, start) == start + size
  {
    var end := WindowEnd(text, size, start);
    NewlineChar(text, end);
  }

  /** Without line breaks and with `overlap < size`, every window advances, so `|text|` windows suffice. */
  lemma NoBreaksTerminates(text: string, size: int, overlap: int, fuel: nat)
    requires '\n' !in text
    requires 0 <= overlap < size
    requires |text| <= fuel
    ensures SplitBySize(text, size, overlap, fuel).Some?
  {
    var step := Stepper(text, size, overlap);
    forall s | 0 <= s < |text| ensures s < step(s).next {
      NoBreaksWindow(text, size, s);
    }
    LoopAdvances(step, |text|, 0, fuel);
  }

  // ================================================================ examples

  lemma ExampleFirstWindow()
    ensures WindowEnd("abcdefgh", 5, 0) == 5
  {
    NoBreaksWindow("abcdefgh", 5, 0);
  }

  /** Three windows that end the loop. */
  lemma LoopThree(step: int -> Window, n: int, a: int, fuel: nat)
    requires 3 <= fuel && a < n && step(a).next < n && step(step(a).next).next < n
    requires step(step(step(a).next).next).next >= n
    ensures Loop(step, n, a, fuel) == Some([step(a).piece, step(step(a).next).piece, step(step(step(a).next).next).piece])
  {
    var b := step(a).next;
    var c := step(b).next;
    assert Loop(step, n, step(c).next, fuel - 3) == Some([]);
    assert [step(c).piece] + [] == [step(c).piece];
    assert Loop(step, n, c, fuel - 2) == Some([step(c).piece]);
    assert [step(b).piece] + [step(c).piece] == [step(b).piece, step(c).piece];
    assert Loop(step, n, b, fuel - 1) == Some([step(b).piece, step(c).piece]);
    assert [step(a).piece] + [step(b).piece, step(c).piece] == [step(a).piece, step(b).piece, step(c).piece];
  }

  /** The final window is never shortened, so the last piece can lie wholly inside the one before it. */
  lemma TrailingPieceExample()
    ensures SplitBySize("abcdefgh", 5, 2, 3) == Some(["abcde", "defgh", "gh"])
  {
    var step := Stepper("abcdefgh", 5, 2);
    TrailingStep(0, "abcde");
    TrailingStep(3, "defgh");
    TrailingStep(6, "gh");
    LoopThree(step, 8, 0, 3);
  }

  lemma TrailingStep(start: int, piece: string)
    requires || (start == 0 && piece == "abcde")
             || (start == 3 && piece == "defgh")
             || (start == 6 && piece == "gh")
    ensures Stepper("abcdefgh", 5, 2)(start) == Window(piece, start + 3)
  {
    var t := "abcdefgh";
    NoBreaksWindow(t, 5, start);
    if start == 0 {
      assert Slice(t, 0, 5) == "abcde";
      StripFixed("abcde");
    } else if start == 3 {
      assert Slice(t, 3, 8) == "defgh";
      StripFixed("defgh");
    } else {
      assert Slice(t, 6, 11) == "gh";
      StripFixed("gh");
    }
  }

  /** One unfolding of the loop: a start below the end emits its piece and goes on from the next start. */
  lemma LoopCons(step: int -> Window, n: int, start: int, fuel: nat, rest: seq<string>)
    requires start < n && 0 < fuel
    requires Loop(step, n, step(start).next, fuel - 1) == Some(rest)
    ensures Loop(step, n, start, fuel) == Some([step(start).piece] + rest)
  {
  }

  /**
   A line break within `overlap` of the start does not always stall the loop:
   with chunk size 4 and overlap 2, the break at index 1 of `"a\nbcd"` sends the
   start to -1, which Python reads as index 4. That window is empty, the next
   opens at 1, and the loop ends, with an empty piece in the middle.
   */
  lemma BackwardsStartExample()
    ensures SplitBySize("a\nbcd", 4, 2, 4) == Some(["a", "", "bcd", "cd"])
  {
    BackwardsFirstStep();
    BackwardsNegativeStep();
    BackwardsThirdStep();
    BackwardsLastStep();
    BackwardsLoop(Stepper("a\nbcd", 4, 2));
  }

  /** The loop over the four windows of the example, for any step that gives them. */
  lemma BackwardsLoop(step: int -> Window)
    requires step(0) == Window("a", -1) && step(-1) == Window("", 1)
    requires step(1) == Window("bcd", 3) && step(3) == Window("cd", 5)
    ensures Loop(step, 5, 0, 4) == Some(["a", "", "bcd", "cd"])
  {
    assert Loop(step, 5, 5, 0) == Some([]);
    LoopCons(step, 5, 3, 1, []);
    assert ["cd"] + [] == ["cd"];
    LoopCons(step, 5, 1, 2, ["cd"]);
    assert ["bcd"] + ["cd"] == ["bcd", "cd"];
    LoopCons(step, 5, -1, 3, ["bcd", "cd"]);
    assert [""] + ["bcd", "cd"] == ["", "bcd", "cd"];
    LoopCons(step, 5, 0, 4, ["", "bcd", "cd"]);
    assert ["a"] + ["", "bcd", "cd"] == ["a", "", "bcd", "cd"];
  }

  /** The first window is cut at the line break at index 1, and the next start is -1. */
  lemma BackwardsFirstStep()
    ensures Stepper("a\nbcd", 4, 2)(0) == Window("a", -1)
  {
    var t := "a\nbcd";
    forall k ensures !OccursAt(t, "\n\n", k) {
      if OccursAt(t, "\n\n", k) {
        ParagraphBreakChars(t, k);
      }
    }
    NewlineChar(t, 1);
    var nl := RFind(t, "\n", 0, 4);
    NewlineChar(t, nl);
    assert nl == 1;
    assert WindowEnd(t, 4, 0) == 1;
    assert Slice(t, 0, 1) == "a";
    StripFixed("a");
  }

  /** From -1 both searches run over the empty range from 4 to 3, so the window ends at 3 and is empty. */
  lemma BackwardsNegativeStep()
    ensures Stepper("a\nbcd", 4, 2)(-1) == Window("", 1)
  {
    var t := "a\nbcd";
    assert RFind(t, "\n\n", -1, 3) == -1;
    assert RFind(t, "\n", -1, 3) == -1;
    assert WindowEnd(t, 4, -1) == 3;
    assert Slice(t, -1, 3) == [];
    StripFixed([]);
  }

  /** The window from 1 reaches the end of the text; stripping drops the leading line break. */
  lemma BackwardsThirdStep()
    ensures Stepper("a\nbcd", 4, 2)(1) == Window("bcd", 3)
  {
    var t := "a\nbcd";
    assert WindowEnd(t, 4, 1) == 5;
    var raw := Slice(t, 1, 5);
    assert raw == "\nbcd";
    assert LeadingSpace(raw) == 1 by {
      assert LeadingSpace(raw[1..]) == 0;
    }
    assert TrailingSpace(raw) == 0;
    assert raw[1..|raw|] == "bcd";
  }

  /** The window from 3 reaches past the end of the text and is not shortened. */
  lemma BackwardsLastStep()
    ensures Stepper("a\nbcd", 4, 2)(3) == Window("cd", 5)
  {
    var t := "a\nbcd";
    assert WindowEnd(t, 4, 3) == 7;
    assert Slice(t, 3, 7) == "cd";
    StripFixed("cd");
  }

  /** With chunk size 4 and overlap 1, a line break at index 1 sends the window back to 0 for ever. */
  lemma StallExample(fuel: nat)
    ensures SplitBySize("a\nbcdef", 4, 1, fuel).None?
  {
    var t := "a\nbcdef";
    forall k | 1 < k < 4 ensures t[k] != '\n' {
    }
    forall k ensures !BreakIn(t, "\n\n", 0, 4, k) {
      if BreakIn(t, "\n\n", 0, 4, k) {
        ParagraphBreakChars(t, k);
      }
    }
    CutAtOverlapStalls(t, 4, 1, 0, fuel);
  }
}
