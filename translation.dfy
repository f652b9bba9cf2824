/** The two halves of the script put together: the frame scan with the real translator,
    whose reply is cleaned of Markdown code fences, and a few runs worked out in full. */
module Translation {
  import opened Text
  import Fences
  import opened Splitter

  /** The translator the script uses: `reply` stands for the remote model's answer to a
      frame (prompt and network included), and the answer is cleaned of code fences. */
  function Translator(reply: string -> string): string -> string {
    frame => Fences.TranslateFrame(reply, frame)
  }

  /** No translated frame written to the output holds a code fence, whatever the model
      replies; and a reply without a fence is written exactly as it came back. */
  lemma TranslatedFramesHaveNoFence(lines: seq<string>, reply: string -> string)
    ensures var segs := SplitLines(lines).segments;
      var w := Render(segs, Translator(reply));
      |w| == |segs| &&
      forall k :: 0 <= k < |segs| && segs[k].Frame? ==>
        !Fences.Contains(w[k], Fences.Fence) &&
        (!Fences.Contains(reply(Concat(segs[k].body)), Fences.Fence) ==>
           w[k] == reply(Concat(segs[k].body)))
  {
    RenderAt(SplitLines(lines).segments, Translator(reply));
  }

  // ---------------------------------------------------------------------------
  // Worked runs

  /** A line holding only `\begin{frame}`, and one holding only `\end{frame}`. */
  const OpenLine: string := BeginFrame + "\n"
  const CloseLine: string := EndFrame + "\n"

  lemma FrameLinesClassified()
    ensures OpensFrame(OpenLine) && !ClosesFrame(OpenLine) && ClosesFrame(CloseLine)
  {
    LStripOfUnindented(OpenLine);
    LStripOfUnindented(CloseLine);
    assert OpenLine[..|BeginFrame|] == BeginFrame;
    assert CloseLine[..|EndFrame|] == EndFrame;
    OpenerIsNotCloser(OpenLine);
  }

  lemma OneFrameSplit(a: string, b: string, c: string)
    requires !OpensFrame(a) && !ClosesFrame(b) && !OpensFrame(c)
    ensures SplitLines([a, OpenLine, b, CloseLine, c]) ==
            Split([Passed(a), Frame([OpenLine, b, CloseLine]), Passed(c)], None)
  {
    FrameLinesClassified();
    var lines := [a, OpenLine, b, CloseLine, c];
    var s0, s1, s2 := Passed(a), Frame([OpenLine, b, CloseLine]), Passed(c);
    assert WellFormed(s1);
    AllWellFormedPrepend(s2, []);
    AllWellFormedPrepend(s1, [s2]);
    AllWellFormedPrepend(s0, [s1, s2]);
    LinesPrepend(s2, []);
    LinesPrepend(s1, [s2]);
    LinesPrepend(s0, [s1, s2]);
    assert [s0] + [s1, s2] == [s0, s1, s2];
    ScanIsUniquePartition(lines, [s0, s1, s2]);
  }

  lemma OneFrameWrites(a: string, body: seq<string>, c: string, t: string -> string)
    ensures var segs := [Passed(a), Frame(body), Passed(c)];
      Render(segs, t) == [LStrip(a), t(Concat(body)), LStrip(c)] &&
      FrameTexts(segs) == [Concat(body)]
  {
    var s0, s1, s2 := Passed(a), Frame(body), Passed(c);
    assert [s0, s1, s2][..2] == [s0, s1] && [s0, s1][..1] == [s0] && [s0][..0] == [];
    assert Render([s0], t) == [LStrip(a)];
    assert Render([s0, s1], t) == [LStrip(a), t(Concat(body))];
    assert FrameTexts([s0]) == [];
  }

  lemma ConcatThree(x: string, y: string, z: string)
    ensures Concat([x, y, z]) == x + y + z
  {
    assert [x, y, z][1..] == [y, z] && [y, z][1..] == [z];
    assert Concat([z]) == z + Concat([]);
  }

  /** A frame between two other lines: the frame's three lines go to the translator as
      one text, the reply takes their place in the output, and the lines around it are
      written left-stripped. A second `\begin{frame}` inside the frame (`b`) opens
      nothing: it is part of the body. */
  lemma OneFrameRun(a: string, b: string, c: string, translate: string -> string)
    requires !OpensFrame(a) && !ClosesFrame(b) && !OpensFrame(c)
    ensures var sp := SplitLines([a, OpenLine, b, CloseLine, c]);
      sp.unterminated.None? &&
      FrameTexts(sp.segments) == [OpenLine + b + CloseLine] &&
      Concat(Render(sp.segments, translate)) ==
        LStrip(a) + translate(OpenLine + b + CloseLine) + LStrip(c)
  {
    OneFrameSplit(a, b, c);
    OneFrameWrites(a, [OpenLine, b, CloseLine], c, translate);
    ConcatThree(OpenLine, b, CloseLine);
    ConcatThree(LStrip(a), translate(OpenLine + b + CloseLine), LStrip(c));
  }

  /** Lines outside frames are not copied as they are: an indented line loses its
      indentation and a blank line disappears from the output. */
  lemma IndentationAndBlankLinesLost(x: string, translate: string -> string)
    requires Unindented(x) && !OpensFrame(x)
    ensures var sp := SplitLines([" " + x, "\n"]);
      sp.unterminated.None? && FrameTexts(sp.segments) == [] &&
      Concat(Render(sp.segments, translate)) == x
  {
    var lines := [" " + x, "\n"];
    assert (" " + x)[1..] == x && "\n"[1..] == [];
    LStripOfUnindented(x);
    NoFramesOnlyStrips(lines, translate);
    var w := Render(SplitLines(lines).segments, translate);
    assert w == [x, []];
    assert w[1..] == [[]] && w[1..][1..] == [];
    assert Concat(w) == x + ([] + Concat([]));
  }

  /** A frame that is never closed stops the run: the lines before it have already been
      written, and nothing from the frame on is. */
  lemma UnclosedFrameCrashes(a: string, b: string, translate: string -> string)
    requires !OpensFrame(a) && !ClosesFrame(b)
    ensures var sp := SplitLines([a, OpenLine, b]);
      sp.unterminated == Some(1) && FrameTexts(sp.segments) == [] &&
      Render(sp.segments, translate) == [LStrip(a)]
  {
    var lines := [a, OpenLine, b];
    FrameLinesClassified();
    StepPassed(lines, 0);
    StepUnclosed(lines, 1);
    assert [Passed(a)][..0] == [];
  }

  /** The lines of a frame are never stripped: with a translator that changes nothing, a
      frame whose body line is indented or blank comes out byte for byte. */
  lemma FrameKeepsIndentation(b: string)
    requires !ClosesFrame(b)
    ensures var sp := SplitLines([OpenLine, b, CloseLine]);
      sp.unterminated.None? &&
      Concat(Render(sp.segments, Identity)) == OpenLine + b + CloseLine
  {
    var lines := [OpenLine, b, CloseLine];
    FrameLinesClassified();
    assert WellFormed(Frame(lines));
    AllWellFormedPrepend(Frame(lines), []);
    LinesPrepend(Frame(lines), []);
    assert [Frame(lines)] + [] == [Frame(lines)];
    ScanIsUniquePartition(lines, [Frame(lines)]);
    assert Render([Frame(lines)], Identity) == [Concat(lines)];
    ConcatThree(OpenLine, b, CloseLine);
    assert Concat([Concat(lines)]) == Concat(lines) + Concat([]);
  }
}
