/** The frame splitter: a scan over the lines of a LaTeX presentation that hands every
    `\begin{frame}` ... `\end{frame}` block to a translator and writes every other line
    left-stripped. */
module Splitter {
  import opened Text

  const BeginFrame: string := "\\begin{frame}"
  const EndFrame: string := "\\end{frame}"

  /** The line, once left-stripped, starts with `\begin{frame}`. */
  predicate OpensFrame(line: string) {
    StartsWith(LStrip(line), BeginFrame)
  }

  /** The line, once left-stripped, starts with `\end{frame}`. */
  predicate ClosesFrame(line: string) {
    StartsWith(LStrip(line), EndFrame)
  }

  /** No line both opens and closes a frame: the markers differ in their second character. */
  lemma OpenerIsNotCloser(line: string)
    requires OpensFrame(line)
    ensures !ClosesFrame(line)
  {
    var s := LStrip(line);
    assert s[1] == s[..|BeginFrame|][1] == 'b';
    if |EndFrame| <= |s| {
      assert s[..|EndFrame|][1] == s[1];
    }
  }

  datatype Option<T> = None | Some(value: T)

  /** One unit of the scan: a line written through, or a frame handed to the translator. */
  datatype Segment = Passed(line: string) | Frame(body: seq<string>) {
    /** The input lines the segment consumed. */
    function Source(): seq<string> {
      match this
      case Passed(l) => [l]
      case Frame(b) => b
    }
  }

  /** The outcome of a scan: the segments in input order and, when the scan crashes, the
      index of the `\begin{frame}` line it could not close. */
  datatype Split = Split(segments: seq<Segment>, unterminated: Option<nat>)

  /** Line `k` opens a frame and no later line closes one. */
  predicate Unclosed(lines: seq<string>, k: nat) {
    k < |lines| && OpensFrame(lines[k]) && forall j {:trigger ClosesFrame(lines[j])} :: k < j < |lines| ==> !ClosesFrame(lines[j])
  }

  /** What a scan segment must look like: a written-through line does not open a frame; a
      frame opens on its first line, closes on its last, and no line before the last closes
      it (lines that open a frame inside it do not nest). */
  predicate WellFormed(seg: Segment) {
    match seg
    case Passed(l) => !OpensFrame(l)
    case Frame(b) =>
      |b| >= 2 && OpensFrame(b[0]) && ClosesFrame(b[|b| - 1]) &&
      forall j {:trigger ClosesFrame(b[j])} :: 0 <= j < |b| - 1 ==> !ClosesFrame(b[j])
  }

  // ---------------------------------------------------------------------------
  // The reference scan

  /** The first line at or after `j` that closes a frame. */
  function FirstCloser(lines: seq<string>, j: nat): (r: Option<nat>)
    requires j <= |lines|
    ensures r.Some? ==> j <= r.value < |lines| && ClosesFrame(lines[r.value])
    ensures forall m {:trigger ClosesFrame(lines[m])} :: j <= m < |lines| && (r.None? || m < r.value) ==> !ClosesFrame(lines[m])
    decreases |lines| - j
  {
    if j == |lines| then None
    else if ClosesFrame(lines[j]) then Some(j)
    else FirstCloser(lines, j + 1)
  }

  function Prepend(seg: Segment, sp: Split): Split {
    Split([seg] + sp.segments, sp.unterminated)
  }

  /** The scan from line `i` on. */
  function SplitFrom(lines: seq<string>, i: nat): Split
    requires i <= |lines|
    decreases |lines| - i
  {
    if i == |lines| then Split([], None)
    else if !OpensFrame(lines[i]) then Prepend(Passed(lines[i]), SplitFrom(lines, i + 1))
    else match FirstCloser(lines, i)
      case None => Split([], Some(i))
      case Some(e) => Prepend(Frame(lines[i..e + 1]), SplitFrom(lines, e + 1))
  }

  function SplitLines(lines: seq<string>): Split {
    SplitFrom(lines, 0)
  }

  /** The lines the segments consumed, in order. */
  function Lines(segs: seq<Segment>): seq<string> {
    if segs == [] then [] else segs[0].Source() + Lines(segs[1..])
  }

  /** What one segment writes: a passed line left-stripped, a frame translated. */
  function Written(seg: Segment, translate: string -> string): string {
    match seg
    case Passed(l) => LStrip(l)
    case Frame(b) => translate(Concat(b))
  }

  /** The successive writes to the output file. */
  function Render(segs: seq<Segment>, translate: string -> string): seq<string> {
    if segs == [] then []
    else Render(segs[..|segs| - 1], translate) + [Written(segs[|segs| - 1], translate)]
  }

  /** The texts handed to the translator, one per frame, in order. */
  function FrameTexts(segs: seq<Segment>): seq<string> {
    if segs == [] then []
    else if segs[|segs| - 1].Frame? then FrameTexts(segs[..|segs| - 1]) + [Concat(segs[|segs| - 1].body)]
    else FrameTexts(segs[..|segs| - 1])
  }

  /** The scan so far, `done`, followed by the scan of the rest. */
  function Resume(done: seq<Segment>, rest: Split): Split {
    Split(done + rest.segments, rest.unterminated)
  }

  lemma ResumeAfter(done: seq<Segment>, seg: Segment, rest: Split)
    ensures Resume(done, Prepend(seg, rest)) == Resume(done + [seg], rest)
  {
    assert done + ([seg] + rest.segments) == (done + [seg]) + rest.segments;
  }

  /** One step of the scan over a line that does not open a frame. */
  lemma StepPassed(lines: seq<string>, i: nat)
    requires i < |lines| && !OpensFrame(lines[i])
    ensures SplitFrom(lines, i) == Prepend(Passed(lines[i]), SplitFrom(lines, i + 1))
  {
  }

  /** The first closer is the closer with none before it. */
  lemma FirstCloserIs(lines: seq<string>, start: nat, e: nat)
    requires start <= e < |lines| && ClosesFrame(lines[e])
    requires forall m {:trigger ClosesFrame(lines[m])} :: start <= m < e ==> !ClosesFrame(lines[m])
    ensures FirstCloser(lines, start) == Some(e)
  {
  }

  /** One step of the scan over a frame that opens at `start` and closes at `e`. */
  lemma StepFrame(lines: seq<string>, start: nat, e: nat)
    requires start <= e < |lines| && OpensFrame(lines[start]) && ClosesFrame(lines[e])
    requires forall m {:trigger ClosesFrame(lines[m])} :: start <= m < e ==> !ClosesFrame(lines[m])
    ensures SplitFrom(lines, start) == Prepend(Frame(lines[start..e + 1]), SplitFrom(lines, e + 1))
  {
    FirstCloserIs(lines, start, e);
  }

  /** The scan stops at a frame that nothing closes. */
  lemma StepUnclosed(lines: seq<string>, start: nat)
    requires start < |lines| && OpensFrame(lines[start])
    requires forall m {:trigger ClosesFrame(lines[m])} :: start <= m < |lines| ==> !ClosesFrame(lines[m])
    ensures SplitFrom(lines, start) == Split([], Some(start))
  {

  }

  // ---------------------------------------------------------------------------
  // The scan as the program runs it

  /** The loop invariant of `ProcessLines`: the segments `done` scanned before line `i`,
      followed by the scan from `i`, make up the whole scan, and the writes and translator
      calls so far are those of `done`. */
  ghost predicate Progress(lines: seq<string>, translate: string -> string, i: nat,
                           done: seq<Segment>, written: seq<string>, calls: seq<string>)
  {
    i <= |lines| && Resume(done, SplitFrom(lines, i)) == SplitLines(lines) &&
    written == Render(done, translate) && calls == FrameTexts(done)
  }

  lemma AdvancePassed(lines: seq<string>, translate: string -> string, i: nat,
                      done: seq<Segment>, written: seq<string>, calls: seq<string>)
    requires Progress(lines, translate, i, done, written, calls)
    requires i < |lines| && !OpensFrame(lines[i])
    ensures Progress(lines, translate, i + 1, done + [Passed(lines[i])],
                     written + [LStrip(lines[i])], calls)
  {
    var seg := Passed(lines[i]);
    assert (done + [seg])[..|done|] == done;
    StepPassed(lines, i);
    ResumeAfter(done, seg, SplitFrom(lines, i + 1));
  }

  lemma AdvanceFrame(lines: seq<string>, translate: string -> string, start: nat, e: nat,
                     done: seq<Segment>, written: seq<string>, calls: seq<string>)
    requires Progress(lines, translate, start, done, written, calls)
    requires start <= e < |lines| && OpensFrame(lines[start]) && ClosesFrame(lines[e])
    requires forall m {:trigger ClosesFrame(lines[m])} :: start <= m < e ==> !ClosesFrame(lines[m])
    ensures var frame := lines[start..e + 1];
      Progress(lines, translate, e + 1, done + [Frame(frame)],
               written + [translate(Concat(frame))], calls + [Concat(frame)])
  {
    var seg := Frame(lines[start..e + 1]);
    assert (done + [seg])[..|done|] == done;
    StepFrame(lines, start, e);
    ResumeAfter(done, seg, SplitFrom(lines, e + 1));
  }

  lemma Crashing(lines: seq<string>, translate: string -> string, start: nat,
                 done: seq<Segment>, written: seq<string>, calls: seq<string>)
    requires Progress(lines, translate, start, done, written, calls)
    requires start < |lines| && OpensFrame(lines[start])
    requires forall m {:trigger ClosesFrame(lines[m])} :: start <= m < |lines| ==> !ClosesFrame(lines[m])
    ensures SplitLines(lines) == Split(done, Some(start))
  {
    StepUnclosed(lines, start);
    assert done + [] == done;
  }

  lemma Finishing(lines: seq<string>, translate: string -> string,
                  done: seq<Segment>, written: seq<string>, calls: seq<string>)
    requires Progress(lines, translate, |lines|, done, written, calls)
    ensures SplitLines(lines) == Split(done, None)
  {
    assert done + [] == done;
  }

  /** The inner loop of the scan: gathers the lines from `start` up to, not including,
      the first line at or after `start` that closes a frame, or up to the end of the
      input when none does. */
  method CollectFrame(lines: seq<string>, start: nat) returns (i: nat, frame: seq<string>)
    requires start <= |lines|
    ensures start <= i <= |lines| && frame == lines[start..i]
    ensures i < |lines| ==> ClosesFrame(lines[i])
    ensures forall m {:trigger ClosesFrame(lines[m])} :: start <= m < i ==> !ClosesFrame(lines[m])
  {
    i, frame := start, [];
    while i < |lines| && !StartsWith(LStrip(lines[i]), EndFrame)
      invariant start <= i <= |lines|
      invariant frame == lines[start..i]
      invariant forall m {:trigger ClosesFrame(lines[m])} :: start <= m < i ==> !ClosesFrame(lines[m])
      decreases |lines| - i
    {
      frame := frame + [lines[i]];
      i := i + 1;
    }
  }

  /** Walks `lines` with a cursor. A line that opens a frame starts a block that runs up to
      and including the first line that closes one; the block's original lines are joined
      and given to `translate`, and the reply is written as it is. Every other line is
      written left-stripped. `written` lists the writes to the output file, `calls` the
      texts given to the translator; `crash` is the index of a `\begin{frame}` line the scan
      ran off the end looking to close, after which nothing more is written. */
  method ProcessLines(lines: seq<string>, translate: string -> string)
    returns (written: seq<string>, calls: seq<string>, crash: Option<nat>)
    ensures written == Render(SplitLines(lines).segments, translate)
    ensures calls == FrameTexts(SplitLines(lines).segments)
    ensures crash == SplitLines(lines).unterminated
  {
    written, calls, crash := [], [], None;
    ghost var done: seq<Segment> := [];
    var i := 0;
    while i < |lines|
      invariant Progress(lines, translate, i, done, written, calls)
      decreases |lines| - i
    {
      var line := LStrip(lines[i]);
      if StartsWith(line, BeginFrame) {
        var start := i;
        var frame: seq<string>;
        i, frame := CollectFrame(lines, start);
        if i == |lines| {
          // `lines[i]` is read past the end: the run stops with an index error.
          Crashing(lines, translate, start, done, written, calls);
          crash := Some(start);
          return;
        }
        frame := frame + [lines[i]];
        assert frame == lines[start..i + 1];
        var content := Concat(frame);
        var translated := translate(content);
        AdvanceFrame(lines, translate, start, i, done, written, calls);
        calls := calls + [content];
        written := written + [translated];
        done := done + [Frame(frame)];
      } else {
        AdvancePassed(lines, translate, i, done, written, calls);
        written := written + [line];
        done := done + [Passed(lines[i])];
      }
      i := i + 1;
    }
    Finishing(lines, translate, done, written, calls);
  }

  // ---------------------------------------------------------------------------
  // Properties of the scan

  lemma {:induction false} RenderAt(segs: seq<Segment>, translate: string -> string)
    ensures |Render(segs, translate)| == |segs|
    ensures forall k :: 0 <= k < |segs| ==> Render(segs, translate)[k] == Written(segs[k], translate)
  {
    if segs != [] {
      RenderAt(segs[..|segs| - 1], translate);
    }
  }

  lemma RenderPrepend(seg: Segment, segs: seq<Segment>, translate: string -> string)
    ensures Render([seg] + segs, translate) == [Written(seg, translate)] + Render(segs, translate)
  {
    RenderAt([seg] + segs, translate);
    RenderAt(segs, translate);
    assert forall k :: 0 < k < |segs| + 1 ==> ([seg] + segs)[k] == segs[k - 1];
  }

  /** When the scan crashes, it is on a line that opens a frame no later line closes. */
  lemma {:induction false} CrashPoint(lines: seq<string>, i: nat)
    requires i <= |lines|
    ensures var u := SplitFrom(lines, i).unterminated;
      u.Some? ==> i <= u.value && Unclosed(lines, u.value)
    decreases |lines| - i
  {
    if i < |lines| {
      if !OpensFrame(lines[i]) {
        CrashPoint(lines, i + 1);
      } else if FirstCloser(lines, i).Some? {
        CrashPoint(lines, FirstCloser(lines, i).value + 1);
      }
    }
  }

  /** Whether the scan from `i` on crashes is decided by an unclosed opener at or after `i`. */
  ghost predicate CrashAgreesFrom(lines: seq<string>, i: nat)
    requires i <= |lines|
  {
    SplitFrom(lines, i).unterminated.Some? <==> exists k :: i <= k && Unclosed(lines, k)
  }

  lemma CrashAfterPassed(lines: seq<string>, i: nat)
    requires i < |lines| && !OpensFrame(lines[i]) && CrashAgreesFrom(lines, i + 1)
    ensures CrashAgreesFrom(lines, i)
  {
    StepPassed(lines, i);
    if k :| i <= k && Unclosed(lines, k) {
      assert k != i;
    }
  }

  lemma CrashAfterFrame(lines: seq<string>, i: nat, e: nat)
    requires i <= e < |lines| && OpensFrame(lines[i]) && ClosesFrame(lines[e])
    requires forall m {:trigger ClosesFrame(lines[m])} :: i <= m < e ==> !ClosesFrame(lines[m])
    requires CrashAgreesFrom(lines, e + 1)
    ensures CrashAgreesFrom(lines, i)
  {
    StepFrame(lines, i, e);
    if k :| i <= k && Unclosed(lines, k) {
      if k == e {
        OpenerIsNotCloser(lines[e]);
      }
      assert e < k;
    }
  }

  lemma {:induction false} CrashFrom(lines: seq<string>, i: nat)
    requires i <= |lines|
    ensures CrashAgreesFrom(lines, i)
    decreases |lines| - i
  {
    if i < |lines| {
      if !OpensFrame(lines[i]) {
        CrashFrom(lines, i + 1);
        CrashAfterPassed(lines, i);
      } else if FirstCloser(lines, i).None? {
        StepUnclosed(lines, i);
        assert Unclosed(lines, i);
      } else {
        var e := FirstCloser(lines, i).value;
        CrashFrom(lines, e + 1);
        CrashAfterFrame(lines, i, e);
      }
    }
  }

  /** The run fails exactly when some `\begin{frame}` line has no `\end{frame}` line after
      it; it then fails on such a line. */
  lemma CrashIff(lines: seq<string>)
    ensures SplitLines(lines).unterminated.Some? <==> exists k :: Unclosed(lines, k)
    ensures SplitLines(lines).unterminated.Some? ==> Unclosed(lines, SplitLines(lines).unterminated.value)
  {
    CrashFrom(lines, 0);
    CrashPoint(lines, 0);
  }

  /** Where the scan stops: at the unclosed frame, or at the end of the input. */
  function Stop(lines: seq<string>, sp: Split): int {
    if sp.unterminated.Some? then sp.unterminated.value else |lines|
  }

  lemma SliceSplit<T>(s: seq<T>, i: nat, j: nat, k: nat)
    requires i <= j <= k <= |s|
    ensures s[i..k] == s[i..j] + s[j..k]
  {
  }

  lemma LinesPrepend(seg: Segment, segs: seq<Segment>)
    ensures Lines([seg] + segs) == seg.Source() + Lines(segs)
  {
    assert ([seg] + segs)[0] == seg && ([seg] + segs)[1..] == segs;
  }

  /** The segments of `sp` are, in order, the lines from `i` to where `sp` stops. */
  predicate Covers(lines: seq<string>, i: nat, sp: Split) {
    i <= Stop(lines, sp) <= |lines| && Lines(sp.segments) == lines[i..Stop(lines, sp)]
  }

  /** The scan from `i` on consumes the lines from `i` to where it stops, in order. */
  predicate CoveredFrom(lines: seq<string>, i: nat)
    requires i <= |lines|
  {
    Covers(lines, i, SplitFrom(lines, i))
  }

  lemma CoversPrepend(lines: seq<string>, i: nat, seg: Segment, rest: Split)
    requires i + |seg.Source()| <= |lines| && lines[i..i + |seg.Source()|] == seg.Source()
    requires Covers(lines, i + |seg.Source()|, rest)
    ensures Covers(lines, i, Prepend(seg, rest))
  {
    LinesPrepend(seg, rest.segments);
    SliceSplit(lines, i, i + |seg.Source()|, Stop(lines, rest));
  }

  lemma CoveredAfterPassed(lines: seq<string>, i: nat)
    requires i < |lines| && !OpensFrame(lines[i]) && CoveredFrom(lines, i + 1)
    ensures CoveredFrom(lines, i)
  {
    StepPassed(lines, i);
    assert lines[i..i + 1] == [lines[i]];
    CoversPrepend(lines, i, Passed(lines[i]), SplitFrom(lines, i + 1));
  }

  lemma CoveredAfterFrame(lines: seq<string>, i: nat, e: nat)
    requires i <= e < |lines| && OpensFrame(lines[i]) && ClosesFrame(lines[e])
    requires forall m {:trigger ClosesFrame(lines[m])} :: i <= m < e ==> !ClosesFrame(lines[m])
    requires CoveredFrom(lines, e + 1)
    ensures CoveredFrom(lines, i)
  {
    StepFrame(lines, i, e);
    CoversPrepend(lines, i, Frame(lines[i..e + 1]), SplitFrom(lines, e + 1));
  }

  /** Every line up to where the scan stops is consumed by exactly one segment, and the
      segments follow the input order. */
  lemma {:induction false} CoversFrom(lines: seq<string>, i: nat)
    requires i <= |lines|
    ensures CoveredFrom(lines, i)
    decreases |lines| - i
  {
    if i == |lines| {
    } else if !OpensFrame(lines[i]) {
      CoversFrom(lines, i + 1);
      CoveredAfterPassed(lines, i);
    } else if FirstCloser(lines, i).None? {
      StepUnclosed(lines, i);
    } else {
      var e := FirstCloser(lines, i).value;
      CoversFrom(lines, e + 1);
      CoveredAfterFrame(lines, i, e);
    }
  }

  lemma SplitCovers(lines: seq<string>)
    ensures var sp := SplitLines(lines);
      Stop(lines, sp) <= |lines| && Lines(sp.segments) == lines[..Stop(lines, sp)]
    ensures SplitLines(lines).unterminated.None? ==> Lines(SplitLines(lines).segments) == lines
  {
    CoversFrom(lines, 0);
  }

  predicate AllWellFormed(segs: seq<Segment>) {
    forall k :: 0 <= k < |segs| ==> WellFormed(segs[k])
  }

  lemma AllWellFormedPrepend(seg: Segment, segs: seq<Segment>)
    ensures AllWellFormed([seg] + segs) <==> WellFormed(seg) && AllWellFormed(segs)
  {
    assert forall k :: 0 < k < |segs| + 1 ==> ([seg] + segs)[k] == segs[k - 1];
    assert ([seg] + segs)[0] == seg;
    if WellFormed(seg) && AllWellFormed(segs) {
      forall k | 0 <= k < |segs| + 1 ensures WellFormed(([seg] + segs)[k]) {
        if k > 0 {
          assert WellFormed(segs[k - 1]);
        }
      }
    }
    if AllWellFormed([seg] + segs) {
      forall k | 0 <= k < |segs| ensures WellFormed(segs[k]) {
        assert WellFormed(([seg] + segs)[k + 1]);
      }
    }
  }

  /** A frame taken from `start` to the first closing line `e` is well formed. */
  lemma FrameWellFormed(lines: seq<string>, start: nat, e: nat)
    requires start <= e < |lines| && OpensFrame(lines[start]) && ClosesFrame(lines[e])
    requires forall m {:trigger ClosesFrame(lines[m])} :: start <= m < e ==> !ClosesFrame(lines[m])
    ensures WellFormed(Frame(lines[start..e + 1]))
  {
    OpenerIsNotCloser(lines[start]);
    var b := lines[start..e + 1];
    assert forall j :: 0 <= j < |b| ==> b[j] == lines[start + j];
  }

  lemma {:induction false} WellFormedFrom(lines: seq<string>, i: nat)
    requires i <= |lines|
    ensures AllWellFormed(SplitFrom(lines, i).segments)
    decreases |lines| - i
  {
    if i == |lines| {
    } else if !OpensFrame(lines[i]) {
      StepPassed(lines, i);
      WellFormedFrom(lines, i + 1);
      AllWellFormedPrepend(Passed(lines[i]), SplitFrom(lines, i + 1).segments);
    } else if FirstCloser(lines, i).None? {
      StepUnclosed(lines, i);
    } else {
      var e := FirstCloser(lines, i).value;
      StepFrame(lines, i, e);
      FrameWellFormed(lines, i, e);
      WellFormedFrom(lines, e + 1);
      AllWellFormedPrepend(Frame(lines[i..e + 1]), SplitFrom(lines, e + 1).segments);
    }
  }

  /** Every segment is well formed: passed lines do not open frames, and a frame runs from
      its opening line to the first closing line after it, whatever opening lines come in
      between. */
  lemma SplitWellFormed(lines: seq<string>)
    ensures AllWellFormed(SplitLines(lines).segments)
  {
    WellFormedFrom(lines, 0);
  }

  /** A well-formed frame lying at `i` is exactly the frame the scan takes there. */
  lemma FrameAt(lines: seq<string>, i: nat, b: seq<string>)
    requires WellFormed(Frame(b)) && i + |b| <= |lines| && lines[i..i + |b|] == b
    ensures OpensFrame(lines[i]) && FirstCloser(lines, i) == Some(i + |b| - 1)
  {
    assert forall m :: i <= m < i + |b| ==> lines[m] == b[m - i];
  }

  lemma SliceOfAppend<T>(s: seq<T>, i: nat, p: seq<T>, q: seq<T>)
    requires i <= |s| && s[i..] == p + q
    ensures i + |p| <= |s| && s[i..i + |p|] == p && s[i + |p|..] == q
  {
    assert s[i..][..|p|] == p && s[i..][|p|..] == q;
  }

  lemma UniquePassed(lines: seq<string>, i: nat, rest: seq<Segment>)
    requires i < |lines| && !OpensFrame(lines[i])
    requires SplitFrom(lines, i + 1) == Split(rest, None)
    ensures SplitFrom(lines, i) == Split([Passed(lines[i])] + rest, None)
  {
    StepPassed(lines, i);
  }

  lemma UniqueFrame(lines: seq<string>, i: nat, b: seq<string>, rest: seq<Segment>)
    requires WellFormed(Frame(b)) && i + |b| <= |lines| && lines[i..i + |b|] == b
    requires SplitFrom(lines, i + |b|) == Split(rest, None)
    ensures SplitFrom(lines, i) == Split([Frame(b)] + rest, None)
  {
    FrameAt(lines, i, b);
    StepFrame(lines, i, i + |b| - 1);
  }

  /** One well-formed segment at line `i`, followed by the scan's own cut of the rest. */
  lemma UniqueStep(lines: seq<string>, i: nat, seg: Segment, rest: seq<Segment>)
    requires WellFormed(seg)
    requires i + |seg.Source()| <= |lines| && lines[i..i + |seg.Source()|] == seg.Source()
    requires SplitFrom(lines, i + |seg.Source()|) == Split(rest, None)
    ensures SplitFrom(lines, i) == Split([seg] + rest, None)
  {
    match seg
    case Passed(l) =>
      assert lines[i] == lines[i..i + 1][0];
      UniquePassed(lines, i, rest);
    case Frame(b) =>
      UniqueFrame(lines, i, b, rest);
  }

  lemma {:induction false} UniqueFrom(lines: seq<string>, i: nat, segs: seq<Segment>)
    requires i <= |lines| && Lines(segs) == lines[i..]
    requires AllWellFormed(segs)
    ensures SplitFrom(lines, i) == Split(segs, None)
    decreases |segs|
  {
    if segs == [] {
      assert |lines[i..]| == 0;
    } else {
      var seg, rest := segs[0], segs[1..];
      assert segs == [seg] + rest;
      AllWellFormedPrepend(seg, rest);
      LinesPrepend(seg, rest);
      SliceOfAppend(lines, i, seg.Source(), Lines(rest));
      UniqueFrom(lines, i + |seg.Source()|, rest);
      UniqueStep(lines, i, seg, rest);
    }
  }

  /** The scan is the only way to cut the input into well-formed segments: any such cut
      that uses every line is the one the scan produces, and then the scan does not crash. */
  lemma ScanIsUniquePartition(lines: seq<string>, segs: seq<Segment>)
    requires Lines(segs) == lines && AllWellFormed(segs)
    ensures SplitLines(lines) == Split(segs, None)
  {
    assert lines[0..] == lines;
    UniqueFrom(lines, 0, segs);
  }

  // ---------------------------------------------------------------------------
  // What is written, line by line

  /** Every left-alone line is written without its indentation; a blank line is written
      as nothing at all. A frame is written as the translator's reply to its joined lines. */
  lemma PassedLinesLoseIndentation(lines: seq<string>, translate: string -> string)
    ensures var segs := SplitLines(lines).segments;
      var w := Render(segs, translate);
      |w| == |segs| &&
      forall k :: 0 <= k < |segs| ==>
        (segs[k].Passed? ==> DropsIndentation(segs[k].line, w[k]) &&
                             (w[k] != [] ==> !IsSpace(w[k][0])) &&
                             (w[k] == [] <==> AllSpace(segs[k].line))) &&
        (segs[k].Frame? ==> w[k] == translate(Concat(segs[k].body)))
  {
    var segs := SplitLines(lines).segments;
    RenderAt(segs, translate);
    forall k | 0 <= k < |segs| && segs[k].Passed?
      ensures DropsIndentation(segs[k].line, LStrip(segs[k].line))
      ensures LStrip(segs[k].line) != [] ==> !IsSpace(LStrip(segs[k].line)[0])
      ensures LStrip(segs[k].line) == [] <==> AllSpace(segs[k].line)
    {
      LStripDropsIndentation(segs[k].line);
      LStripEmptyIff(segs[k].line);
    }
  }

  /** A translator that hands every frame back unchanged. */
  function Identity(s: string): string {
    s
  }

  predicate Unindented(s: string) {
    s == [] || !IsSpace(s[0])
  }

  lemma {:induction false} RenderIdentity(segs: seq<Segment>)
    requires forall k :: 0 <= k < |segs| && segs[k].Passed? ==> Unindented(segs[k].line)
    ensures Concat(Render(segs, Identity)) == Concat(Lines(segs))
    decreases |segs|
  {
    if segs != [] {
      var seg, rest := segs[0], segs[1..];
      assert segs == [seg] + rest;
      LinesPrepend(seg, rest);
      RenderPrepend(seg, rest, Identity);
      assert forall k :: 0 <= k < |rest| ==> rest[k] == segs[k + 1];
      RenderIdentity(rest);
      ConcatAppend([Written(seg, Identity)], Render(rest, Identity));
      ConcatAppend(seg.Source(), Lines(rest));
      match seg
      case Passed(l) =>
        LStripOfUnindented(l);
        assert Concat([l]) == l + Concat([]);
      case Frame(b) =>
        assert Concat([Concat(b)]) == Concat(b) + Concat([]);
    }
  }

  /** With a translator that changes nothing, a file whose frames are all closed and
      whose lines outside frames do not start with whitespace comes out exactly as it
      went in: the lines of a frame, indented or blank ones included, are not stripped. */
  lemma IdentityRoundTrip(lines: seq<string>)
    requires forall k :: !Unclosed(lines, k)
    requires var segs := SplitLines(lines).segments;
      forall k :: 0 <= k < |segs| && segs[k].Passed? ==> Unindented(segs[k].line)
    ensures SplitLines(lines).unterminated.None?
    ensures Concat(Render(SplitLines(lines).segments, Identity)) == Concat(lines)
  {
    CrashIff(lines);
    SplitCovers(lines);
    RenderIdentity(SplitLines(lines).segments);
  }

  lemma {:induction false} NoFramesFrom(lines: seq<string>, i: nat)
    requires i <= |lines|
    requires forall k :: i <= k < |lines| ==> !OpensFrame(lines[k])
    ensures var sp := SplitFrom(lines, i);
      sp.unterminated.None? && |sp.segments| == |lines| - i &&
      forall k :: 0 <= k < |sp.segments| ==> sp.segments[k] == Passed(lines[i + k])
    decreases |lines| - i
  {
    if i < |lines| {
      StepPassed(lines, i);
      NoFramesFrom(lines, i + 1);
      var rest := SplitFrom(lines, i + 1).segments;
      assert forall k :: 0 < k < |rest| + 1 ==> ([Passed(lines[i])] + rest)[k] == rest[k - 1];
    }
  }

  lemma {:induction false} NoFrameTexts(segs: seq<Segment>)
    requires forall k :: 0 <= k < |segs| ==> segs[k].Passed?
    ensures FrameTexts(segs) == []
  {
    if segs != [] {
      NoFrameTexts(segs[..|segs| - 1]);
    }
  }

  /** A file with no frame in it never reaches the translator: it is copied line by line,
      each line left-stripped, and the run completes. */
  lemma NoFramesOnlyStrips(lines: seq<string>, translate: string -> string)
    requires forall k :: 0 <= k < |lines| ==> !OpensFrame(lines[k])
    ensures SplitLines(lines).unterminated.None?
    ensures FrameTexts(SplitLines(lines).segments) == []
    ensures var w := Render(SplitLines(lines).segments, translate);
      |w| == |lines| && forall k :: 0 <= k < |lines| ==> w[k] == LStrip(lines[k])
  {
    NoFramesFrom(lines, 0);
    var segs := SplitLines(lines).segments;
    NoFrameTexts(segs);
    RenderAt(segs, translate);
  }
}
