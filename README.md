# LaTeX frame translator: the frame splitter and the reply clean-up

`tools/latex_to_en.py` translates a Beamer presentation into English. It reads the
`.tex` file as a list of lines. Each `\begin{frame}` ... `\end{frame}` block goes to a
chat model in one piece, and the model's reply is written in the block's place. Every
other line is written out with its leading whitespace removed. Before the reply is
written, it is cleaned of the Markdown code fences a chat model tends to wrap LaTeX in.

This project models those two pieces of logic and proves properties about them:

- `text.dfy` (module `Text`) holds the Python string operations the script relies on:
  `str.lstrip()` over Python's full `str.isspace` set, `str.startswith` and `"".join`.
- `fences.dfy` (module `Fences`) holds `str.replace(p, "")` as `RemoveAll`, the reply
  clean-up `StripFences`, and the translator `TranslateFrame`. In `TranslateFrame` the
  remote chat call and its prompt are a function parameter `reply`.
- `splitter.dfy` (module `Splitter`) holds the scan:
  - `ProcessLines` is the imperative outer loop, with a cursor, an output accumulator and
    a record of translator calls.
  - `CollectFrame` is the inner loop.
  - `SplitFrom`/`SplitLines` are a functional specification of the same scan. They cut
    the input into `Passed` lines and `Frame` blocks and mark where the run crashes.
  - The remaining lemmas are properties of that specification.
- `translation.dfy` (module `Translation`) plugs the fence-stripping translator into the
  scan and works out small runs in full.

The translator is a parameter `translate: string -> string` of the scan. The script's
own translator is `Translation.Translator(reply)`.

An unterminated frame makes the script read `lines[i]` past the end of the list, and the
run dies with an index error. `ProcessLines` returns this as `crash == Some(k)`, where
`k` is the index of the unclosed `\begin{frame}` line. `written` then holds what had
already reached the output file when the error hit.

The comment at `tools/latex_to_en.py:70` says non-frame content is written directly.
The code at line 71 writes `line` instead, which is `lines[i].lstrip()` from line 53. So
an indented line loses its indentation, and a line of only whitespace (a blank `"\n"`)
writes nothing. The model follows the code. `Splitter.PassedLinesLoseIndentation` and
`Translation.IndentationAndBlankLinesLost` state the consequence.

## Model

| member | source | states |
|---|---|---|
| Text.LStripDropsIndentation | tools/latex_to_en.py:53 | `lstrip()` removes only whitespace, and only from the front; what remains is a suffix of the line that does not start with whitespace |
| Text.LStripEmptyIff | tools/latex_to_en.py:53 | a line strips to the empty string exactly when every character in it is whitespace |
| Text.LStripOfUnindented | tools/latex_to_en.py:53 | a line that does not start with whitespace is left unchanged by `lstrip()` |
| Text.ConcatAppend | tools/latex_to_en.py:64 | `"".join` of two lists put together is the join of the first followed by the join of the second |
| Fences.TranslateFrame | tools/latex_to_en.py:29-37 | whatever the model replies, the translated frame contains no code fence; a reply without a fence is returned exactly as it came back |
| Fences.RemoveAllKeepsOthers | tools/latex_to_en.py:37 | `replace(p, "")` keeps every character outside `p`'s alphabet, in its original order |
| Fences.StripFencesKeepsOthers | tools/latex_to_en.py:37 | the clean-up keeps every character that is not a backtick or a letter of "latex", in its original order (which backticks and letters of "latex" survive is stated by the first-occurrence lemmas below) |
| Fences.RemoveAllIsSubsequence | tools/latex_to_en.py:37 | `replace(p, "")` only deletes: its result is a subsequence of its input |
| Fences.StripFencesIsSubsequence | tools/latex_to_en.py:37 | the cleaned reply is a subsequence of the raw reply |
| Fences.RemoveAllUntouched | tools/latex_to_en.py:37 | `replace(p, "")` leaves a string that does not contain `p` unchanged |
| Fences.NoFenceAfterRemoval | tools/latex_to_en.py:37 | after removing every "```" none is left, even one formed by joining the text on either side of a removed fence |
| Fences.StripFencesLeavesNoFence | tools/latex_to_en.py:37 | the cleaned reply contains no "```": a stray fence left by the first `replace` is removed by the second |
| Fences.StripFencesUntouched | tools/latex_to_en.py:37 | a reply without "```" (and so without "```latex") passes through the clean-up unchanged |
| Fences.RemoveAllPrefix | tools/latex_to_en.py:37 | `replace(p, "")` copies any leading text in which no occurrence of `p` starts, and carries on after it |
| Fences.RemoveAllFirst | tools/latex_to_en.py:37 | `replace(p, "")` deletes the first occurrence of `p`, keeps everything before it and goes on with the rest; with `RemoveAllUntouched` this determines the result on every input |
| Fences.StripFencesKeepsPrefix | tools/latex_to_en.py:37 | leading text that holds no "```" and does not end in a backtick passes through the clean-up verbatim, and the rest is cleaned on its own |
| Fences.StripFencesDropsLatexFence | tools/latex_to_en.py:37 | a "```latex" fence is deleted, the text before it is kept verbatim and the text after it is cleaned |
| Fences.StripFencesDropsFence | tools/latex_to_en.py:37 | a bare "```" fence with no "```latex" starting inside it is deleted, the text before it is kept verbatim and the text after it is cleaned |
| Fences.ReplyAfterFence | tools/latex_to_en.py:37 | a reply of "```" followed by fence-free text that starts with neither a backtick nor "latex" is cleaned to exactly that text |
| Fences.StripFencesIdempotent | tools/latex_to_en.py:37 | cleaning a cleaned reply changes nothing |
| Fences.ClosingFenceRemoved | tools/latex_to_en.py:37 | a closing "```" after fence-free text is removed and nothing else is |
| Fences.UnwrapCodeBlock | tools/latex_to_en.py:37 | a reply of the form "```latex" + body + "```" with a fence-free body is cleaned to exactly the body |
| Splitter.OpenerIsNotCloser | tools/latex_to_en.py:55-58 | a line that opens a frame never closes one, so the opening line itself never ends the inner loop |
| Splitter.FirstCloser | tools/latex_to_en.py:58-60 | the index found is the first line at or after the start whose left-stripped form starts with `\end{frame}`; no result means there is no such line |
| Splitter.CollectFrame | tools/latex_to_en.py:57-60 | the inner loop stops at the first closing line, or at the end of the input; it gathers the original, unstripped lines before that point |
| Splitter.ProcessLines | tools/latex_to_en.py:51-73 | the writes, the translator calls and the crash point of the loop are exactly those of the scan `SplitLines`: one write per line outside frames and one per frame, in input order, and one call per frame |
| Splitter.RenderAt | tools/latex_to_en.py:67-71 | there is one write per segment, and write `k` is segment `k`'s output: a left-stripped line, or the translator's reply to the joined frame |
| Splitter.CrashPoint | tools/latex_to_en.py:52-58 | if the scan from line `i` crashes, it crashes on a `\begin{frame}` line at or after `i` with no closing line after it |
| Splitter.CrashFrom | tools/latex_to_en.py:52-58 | the scan from line `i` crashes if and only if some `\begin{frame}` line at or after `i` has no closing line after it |
| Splitter.CrashIff | tools/latex_to_en.py:52-58 | the run fails if and only if the file has a `\begin{frame}` line with no `\end{frame}` line after it, and it then fails on such a line |
| Splitter.SplitCovers | tools/latex_to_en.py:51-61 | the segments consume the input lines in order, each exactly once, up to the crash point; with no crash they consume them all |
| Splitter.SplitWellFormed | tools/latex_to_en.py:55-61 | each segment is well formed: a passed line does not open a frame; a frame runs from an opening line to the first closing line after it, and lines in between that open a frame do not nest |
| Splitter.ScanIsUniquePartition | tools/latex_to_en.py:51-73 | any cut of the file into well-formed segments that uses every line is the scan's own cut, and the run then does not crash |
| Splitter.PassedLinesLoseIndentation | tools/latex_to_en.py:53-71 | a line outside frames is written without its leading whitespace: what is written is a suffix of the line that does not start with whitespace, and only whitespace was cut off; a whitespace-only line is written as nothing; a frame is written as the translator's reply to its joined, unstripped lines |
| Splitter.IdentityRoundTrip | tools/latex_to_en.py:59-71 | with a translator that changes nothing, a file with no unclosed frame and no indented or blank line outside a frame is written out exactly as it was read; lines inside frames, indented or blank ones included, come out byte for byte |
| Splitter.NoFramesOnlyStrips | tools/latex_to_en.py:53-55 | a file without frames never reaches the translator; it is copied line by line, each line left-stripped, and the run completes |
| Translation.TranslatedFramesHaveNoFence | tools/latex_to_en.py:37 | no frame written with the script's translator contains "```"; where the reply had no fence, the reply itself is written |
| Translation.FrameLinesClassified | tools/latex_to_en.py:55-58 | the two lines `\begin{frame}\n` and `\end{frame}\n` used in the worked runs: the first opens a frame and does not close one, the second closes one (the general fact that no opening line closes a frame is `Splitter.OpenerIsNotCloser`) |
| Translation.OneFrameSplit | tools/latex_to_en.py:51-61 | a line, a frame of three lines and a line are cut into a passed line, one frame and a passed line, even when the frame's middle line opens another frame |
| Translation.OneFrameRun | tools/latex_to_en.py:51-73 | for that file the translator is called once, on the frame's three lines joined; the output is the first line stripped, the reply, then the last line stripped |
| Translation.IndentationAndBlankLinesLost | tools/latex_to_en.py:53-71 | an indented line followed by a blank line comes out as the unindented line alone |
| Translation.FrameKeepsIndentation | tools/latex_to_en.py:57-64 | a frame whose body line is indented or blank is written byte for byte under a translator that changes nothing: frame lines are never stripped |
| Translation.UnclosedFrameCrashes | tools/latex_to_en.py:52-58 | an unclosed frame on line 1 crashes the run there, after the line before it has been written and before any translator call |

## Left out

- The OpenAI client, the chat-completion call, the prompt text, `MODEL_NAME`,
  `MAX_TOKENS` and `TEMPERATURE` are not modelled. The reply is an arbitrary function
  `reply` of the frame text. This makes replies deterministic: two frames with the same
  text get the same reply, which the real service does not promise. No lemma relies on
  two replies being equal. A failing call (an exception) is not modelled.
- Reading `OPENAI_VSB_API_KEY` from the environment is not modelled.
- File reading is not modelled: the input is given as the list of lines `readlines()`
  returns. Text-mode newline translation and UTF-8 decoding happen before that point.
- The output file is modelled as the list of strings written to it, in order. Its content
  is their concatenation before text-mode newline translation: a file opened for writing
  in text mode turns each `"\n"` into the platform's line separator, and that is not
  modelled.
- The debug `print` of each translated frame has no effect on the output and is not
  modelled.
- The command-line handling and `sys.exit` in the `__main__` block are not modelled.
- `Text.LStrip` removes the 29 characters Python's `str.isspace` accepts. Unicode
  normalisation plays no part in `lstrip()`.
