/** Clean-up of the translator's reply: the Markdown code fences a chat model tends to
    wrap LaTeX in are deleted, first every "```latex", then every "```". */
module Fences {
  import opened Text

  /** The opening fence of a LaTeX code block. */
  const LatexFence: string := "```latex"

  /** A bare code fence. */
  const Fence: string := "```"

  /** `p` occurs in `s` starting at index `i`. */
  predicate OccursAt(s: string, p: string, i: nat) {
    i + |p| <= |s| && s[i..i + |p|] == p
  }

  predicate Contains(s: string, p: string) {
    exists i: nat | i <= |s| :: OccursAt(s, p, i)
  }

  /** `s.replace(p, "")`: scanning from the left, every occurrence of `p` that does not
      overlap an earlier deleted one is deleted; everything else is copied. */
  function RemoveAll(s: string, p: string): string
    requires p != []
    decreases |s|
  {
    if StartsWith(s, p) then RemoveAll(s[|p|..], p)
    else if s == [] then []
    else [s[0]] + RemoveAll(s[1..], p)
  }

  /** The reply clean-up: `.replace("```latex", "").replace("```", "")`. */
  function StripFences(s: string): string {
    RemoveAll(RemoveAll(s, LatexFence), Fence)
  }

  /** A translated frame: the model's reply to the frame text, with its fences removed.
      `reply` stands for the remote chat-completion call and the prompt it is given. */
  function TranslateFrame(reply: string -> string, frame: string): (r: string)
    ensures !Contains(r, Fence)
    ensures !Contains(reply(frame), Fence) ==> r == reply(frame)
  {
    StripFencesLeavesNoFence(reply(frame));
    var r := StripFences(reply(frame));
    if Contains(reply(frame), Fence) then r
    else StripFencesUntouched(reply(frame)); r
  }

  // ---------------------------------------------------------------------------
  // Characters kept in order

  /** The characters of `s` outside `a`, in their order in `s`. */
  function Outside(s: string, a: set<char>): string {
    if s == [] then []
    else if s[0] in a then Outside(s[1..], a)
    else [s[0]] + Outside(s[1..], a)
  }

  lemma {:induction false} OutsideAppend(s: string, t: string, a: set<char>)
    ensures Outside(s + t, a) == Outside(s, a) + Outside(t, a)
  {
    if s != [] {
      assert (s + t)[1..] == s[1..] + t;
      OutsideAppend(s[1..], t, a);
    } else {
      assert s + t == t;
    }
  }

  lemma {:induction false} OutsideOfInside(s: string, a: set<char>)
    requires forall k :: 0 <= k < |s| ==> s[k] in a
    ensures Outside(s, a) == []
  {
    if s != [] {
      OutsideOfInside(s[1..], a);
    }
  }

  /** Deleting occurrences of `p` touches no character outside `p`'s alphabet: those
      characters all survive, in their original order. */
  lemma {:induction false} RemoveAllKeepsOthers(s: string, p: string, a: set<char>)
    requires p != []
    requires forall k :: 0 <= k < |p| ==> p[k] in a
    ensures Outside(RemoveAll(s, p), a) == Outside(s, a)
    decreases |s|
  {
    if StartsWith(s, p) {
      RemoveAllKeepsOthers(s[|p|..], p, a);
      assert s == p + s[|p|..];
      OutsideAppend(p, s[|p|..], a);
      OutsideOfInside(p, a);
    } else if s != [] {
      RemoveAllKeepsOthers(s[1..], p, a);
      assert [s[0]] + RemoveAll(s[1..], p) == RemoveAll(s, p);
      OutsideAppend([s[0]], RemoveAll(s[1..], p), a);
      assert [s[0]][1..] == [];
    }
  }

  /** The characters that occur in "```latex". */
  const FenceAlphabet: set<char> := {'`', 'l', 'a', 't', 'e', 'x'}

  /** Every character other than those of "```latex" survives the clean-up, in order. */
  lemma StripFencesKeepsOthers(s: string)
    ensures Outside(StripFences(s), FenceAlphabet) == Outside(s, FenceAlphabet)
  {
    RemoveAllKeepsOthers(s, LatexFence, FenceAlphabet);
    RemoveAllKeepsOthers(RemoveAll(s, LatexFence), Fence, FenceAlphabet);
  }

  // ---------------------------------------------------------------------------
  // Only deletion

  /** `a` is obtained from `b` by deleting characters. */
  predicate IsSubsequence(a: string, b: string)
    decreases |b|
  {
    if a == [] then true
    else if b == [] then false
    else (a[0] == b[0] && IsSubsequence(a[1..], b[1..])) || IsSubsequence(a, b[1..])
  }

  lemma {:induction false} SubsequenceOfSuffix(a: string, b: string, k: nat)
    requires k <= |b| && IsSubsequence(a, b[k..])
    ensures IsSubsequence(a, b)
    decreases k
  {
    if k > 0 {
      assert b[1..][k - 1..] == b[k..];
      SubsequenceOfSuffix(a, b[1..], k - 1);
    }
  }

  lemma {:induction false} SubsequenceTransitive(a: string, b: string, c: string)
    requires IsSubsequence(a, b) && IsSubsequence(b, c)
    ensures IsSubsequence(a, c)
    decreases |c|
  {
    if a != [] {
      if IsSubsequence(b, c[1..]) {
        SubsequenceTransitive(a, b, c[1..]);
      } else if a[0] == b[0] && IsSubsequence(a[1..], b[1..]) {
        SubsequenceTransitive(a[1..], b[1..], c[1..]);
      } else {
        SubsequenceTransitive(a, b[1..], c[1..]);
      }
    }
  }

  /** `s.replace(p, "")` only deletes characters of `s`; it never adds or reorders any. */
  lemma {:induction false} RemoveAllIsSubsequence(s: string, p: string)
    requires p != []
    ensures IsSubsequence(RemoveAll(s, p), s)
    decreases |s|
  {
    if StartsWith(s, p) {
      RemoveAllIsSubsequence(s[|p|..], p);
      SubsequenceOfSuffix(RemoveAll(s, p), s, |p|);
    } else if s != [] {
      RemoveAllIsSubsequence(s[1..], p);
    }
  }

  /** The clean-up only deletes characters of the reply. */
  lemma StripFencesIsSubsequence(s: string)
    ensures IsSubsequence(StripFences(s), s)
  {
    RemoveAllIsSubsequence(s, LatexFence);
    RemoveAllIsSubsequence(RemoveAll(s, LatexFence), Fence);
    SubsequenceTransitive(StripFences(s), RemoveAll(s, LatexFence), s);
  }

  // ---------------------------------------------------------------------------
  // No fence survives; fence-free text is untouched

  /** Text in which `p` does not occur is copied unchanged. */
  lemma {:induction false} RemoveAllUntouched(s: string, p: string)
    requires p != [] && !Contains(s, p)
    ensures RemoveAll(s, p) == s
    decreases |s|
  {
    if StartsWith(s, p) {
      assert OccursAt(s, p, 0);
    } else if s != [] {
      forall i: nat | OccursAt(s[1..], p, i) ensures false {
        assert s[1..][i..i + |p|] == s[i + 1..i + 1 + |p|];
        assert OccursAt(s, p, i + 1);
      }
      RemoveAllUntouched(s[1..], p);
    }
  }

  /** When `s` does not begin with `p`, its first character is copied. */
  lemma KeepFirst(s: string, p: string)
    requires p != [] && s != [] && !StartsWith(s, p)
    ensures RemoveAll(s, p) == [s[0]] + RemoveAll(s[1..], p)
  {
  }

  /** If what is left of `t` begins with "``", so does `t`. */
  lemma TwoTicksCameFromTwoTicks(t: string)
    requires |RemoveAll(t, Fence)| >= 2
    requires RemoveAll(t, Fence)[0] == '`' && RemoveAll(t, Fence)[1] == '`'
    ensures |t| >= 2 && t[0] == '`' && t[1] == '`'
  {
    if !StartsWith(t, Fence) {
      KeepFirst(t, Fence);
      var u := t[1..];
      if u != [] && u[0] != '`' {
        KeepFirst(u, Fence);
      }
    }
  }

  /** Putting one character in front of fence-free text creates a fence only when the
      character is a backtick and the text begins with two. */
  lemma ConsNoFence(c: char, rest: string)
    requires !Contains(rest, Fence)
    requires !(c == '`' && |rest| >= 2 && rest[0] == '`' && rest[1] == '`')
    ensures !Contains([c] + rest, Fence)
  {
    var r := [c] + rest;
    forall i: nat ensures !OccursAt(r, Fence, i) {
      if i == 0 && |r| >= 3 {
        assert r[0] == c && r[1] == rest[0] && r[2] == rest[1];
      } else if i > 0 && i + 3 <= |r| {
        assert rest[i - 1..i + 2] == r[i..i + 3];
        assert !OccursAt(rest, Fence, i - 1);
      }
    }
  }

  /** Deleting every "```" cannot create a new one: a run of backticks shrinks to fewer
      than three, and runs stay separated by the characters that separated them. */
  lemma {:induction false} NoFenceAfterRemoval(s: string)
    ensures !Contains(RemoveAll(s, Fence), Fence)
    decreases |s|
  {
    if StartsWith(s, Fence) {
      NoFenceAfterRemoval(s[3..]);
    } else if s != [] {
      NoFenceAfterRemoval(s[1..]);
      KeepFirst(s, Fence);
      var rest := RemoveAll(s[1..], Fence);
      if s[0] == '`' && |rest| >= 2 && rest[0] == '`' && rest[1] == '`' {
        TwoTicksCameFromTwoTicks(s[1..]);
      }
      ConsNoFence(s[0], rest);
    }
  }

  /** No "```" survives the clean-up, even one that deleting "```latex" brings together. */
  lemma StripFencesLeavesNoFence(s: string)
    ensures !Contains(StripFences(s), Fence)
  {
    NoFenceAfterRemoval(RemoveAll(s, LatexFence));
  }

  /** A reply without a fence is returned unchanged. */
  lemma StripFencesUntouched(s: string)
    requires !Contains(s, Fence)
    ensures StripFences(s) == s
  {
    forall i: nat | OccursAt(s, LatexFence, i) ensures false {
      assert s[i..i + 3] == s[i..i + 8][..3];
      assert OccursAt(s, Fence, i);
    }
    RemoveAllUntouched(s, LatexFence);
    RemoveAllUntouched(s, Fence);
  }

  /** Cleaning an already cleaned reply changes nothing. */
  lemma StripFencesIdempotent(s: string)
    ensures StripFences(StripFences(s)) == StripFences(s)
  {
    StripFencesLeavesNoFence(s);
    StripFencesUntouched(StripFences(s));
  }

  /** A fence-free body followed by a closing fence loses exactly the fence, even when
      the body itself ends in one or two backticks. */
  lemma {:induction false} ClosingFenceRemoved(body: string)
    requires !Contains(body, Fence)
    ensures RemoveAll(body + Fence, Fence) == body
    decreases |body|
  {
    var t := body + Fence;
    if |body| >= 3 {
      // A fence at the front of `t` would be a fence at the front of `body`.
      assert !OccursAt(body, Fence, 0);
      assert body[..3] == t[..3];
    }
    if body == [] {
      assert t == Fence && t[3..] == [];
    } else if StartsWith(t, Fence) {
      if |body| == 1 {
        assert body[0] == t[0];
        assert body == "`" && t[3..] == body;
        KeepFirst(body, Fence);
      } else {
        assert body[0] == t[0] && body[1] == t[1];
        assert body == "``" && t[3..] == body;
        KeepFirst(body, Fence);
        KeepFirst(body[1..], Fence);
      }
    } else {
      forall i: nat | OccursAt(body[1..], Fence, i) ensures false {
        assert body[1..][i..i + 3] == body[i + 1..i + 4];
        assert OccursAt(body, Fence, i + 1);
      }
      ClosingFenceRemoved(body[1..]);
      assert t[1..] == body[1..] + Fence;
    }
  }

  /** A reply wrapped as a LaTeX code block, "```latex" body "```", comes out as the body,
      provided the body itself holds no fence. */
  lemma UnwrapCodeBlock(body: string)
    requires !Contains(body, Fence)
    ensures StripFences(LatexFence + body + Fence) == body
  {
    var s := LatexFence + body + Fence;
    assert StartsWith(s, LatexFence);
    assert s[8..] == body + Fence;
    forall i: nat | OccursAt(body + Fence, LatexFence, i) ensures false {
      assert (body + Fence)[i..i + 3] == (body + Fence)[i..i + 8][..3];
      assert body[i..i + 3] == (body + Fence)[i..i + 3];
      assert OccursAt(body, Fence, i);
    }
    RemoveAllUntouched(body + Fence, LatexFence);
    ClosingFenceRemoved(body);
  }

  // ---------------------------------------------------------------------------
  // Everything before the first occurrence is kept

  /** When no occurrence of `p` starts inside `a`, `s.replace(p, "")` copies `a` and
      carries on after it. */
  lemma {:induction false} RemoveAllPrefix(a: string, x: string, p: string)
    requires p != []
    requires forall i: nat :: i < |a| ==> !OccursAt(a + x, p, i)
    ensures RemoveAll(a + x, p) == a + RemoveAll(x, p)
    decreases |a|
  {
    if a == [] {
      assert a + x == x;
    } else {
      var s := a + x;
      assert !OccursAt(s, p, 0);
      assert s[1..] == a[1..] + x;
      forall i: nat | i < |a[1..]| ensures !OccursAt(a[1..] + x, p, i) {
        assert !OccursAt(s, p, i + 1);
        if i + |p| <= |s[1..]| {
          assert s[1..][i..i + |p|] == s[i + 1..i + 1 + |p|];
        }
      }
      RemoveAllPrefix(a[1..], x, p);
      assert s[0] == a[0] && a == [a[0]] + a[1..];
    }
  }

  /** `s.replace(p, "")` deletes the first occurrence of `p`, keeps everything before it,
      and goes on with the rest. With `RemoveAllUntouched` this determines the deletion
      on every input. */
  lemma RemoveAllFirst(a: string, p: string, b: string)
    requires p != [] && forall i: nat :: i < |a| ==> !OccursAt(a + p, p, i)
    ensures RemoveAll(a + p + b, p) == a + RemoveAll(b, p)
  {
    forall i: nat | i < |a| ensures !OccursAt(a + (p + b), p, i) {
      assert !OccursAt(a + p, p, i);
      assert (a + (p + b))[i..i + |p|] == (a + p)[i..i + |p|];
    }
    RemoveAllPrefix(a, p + b, p);
    assert (p + b)[|p|..] == b;
    assert a + p + b == a + (p + b);
  }

  /** Text without a fence that does not end in a backtick cannot be part of a fence,
      whatever follows it. */
  lemma NoFenceAcross(a: string, y: string)
    requires !Contains(a, Fence) && (a == [] || a[|a| - 1] != '`')
    ensures forall i: nat :: i < |a| ==> !OccursAt(a + y, Fence, i)
  {
    forall i: nat | i < |a| ensures !OccursAt(a + y, Fence, i) {
      if i + 3 <= |a| {
        assert !OccursAt(a, Fence, i);
        assert (a + y)[i..i + 3] == a[i..i + 3];
      } else if i + 3 <= |a + y| {
        assert (a + y)[i..i + 3][|a| - 1 - i] == a[|a| - 1];
      }
    }
  }

  /** Every "```latex" begins with a "```". */
  lemma LatexFenceBeginsWithFence(s: string, i: nat)
    ensures OccursAt(s, LatexFence, i) ==> OccursAt(s, Fence, i)
  {
    if i + 8 <= |s| {
      assert s[i..i + 3] == s[i..i + 8][..3];
    }
  }

  /** The clean-up keeps verbatim any leading text that holds no fence and does not end
      in a backtick, and cleans the rest on its own. */
  lemma StripFencesKeepsPrefix(a: string, s: string)
    requires !Contains(a, Fence) && (a == [] || a[|a| - 1] != '`')
    ensures StripFences(a + s) == a + StripFences(s)
  {
    NoFenceAcross(a, s);
    forall i: nat | i < |a| ensures !OccursAt(a + s, LatexFence, i) {
      LatexFenceBeginsWithFence(a + s, i);
    }
    RemoveAllPrefix(a, s, LatexFence);
    NoFenceAcross(a, RemoveAll(s, LatexFence));
    RemoveAllPrefix(a, RemoveAll(s, LatexFence), Fence);
  }

  /** An opening "```latex" fence is deleted and the text before it kept. */
  lemma StripFencesDropsLatexFence(a: string, b: string)
    requires !Contains(a, Fence) && (a == [] || a[|a| - 1] != '`')
    ensures StripFences(a + LatexFence + b) == a + StripFences(b)
  {
    StripFencesKeepsPrefix(a, LatexFence + b);
    assert (LatexFence + b)[|LatexFence|..] == b;
    assert a + LatexFence + b == a + (LatexFence + b);
  }

  /** A bare "```" fence, with no "```latex" starting inside it, is deleted and the text
      around it kept: for the reply "```" + b it leaves `StripFences(b)`. */
  lemma StripFencesDropsFence(a: string, b: string)
    requires !Contains(a, Fence) && (a == [] || a[|a| - 1] != '`')
    requires forall i: nat :: i < |Fence| ==> !OccursAt(Fence + b, LatexFence, i)
    ensures StripFences(a + Fence + b) == a + StripFences(b)
  {
    StripFencesKeepsPrefix(a, Fence + b);
    RemoveAllPrefix(Fence, b, LatexFence);
    var y := RemoveAll(b, LatexFence);
    assert (Fence + y)[|Fence|..] == y;
    assert a + Fence + b == a + (Fence + b);
  }

  /** A reply that opens with a bare "```" followed by fence-free text that does not
      begin with "latex" or a backtick is cleaned to exactly that text. */
  lemma ReplyAfterFence(b: string)
    requires !Contains(b, Fence) && (b == [] || b[0] != '`') && !StartsWith(b, "latex")
    ensures StripFences(Fence + b) == b
  {
    forall i: nat | i < |Fence| ensures !OccursAt(Fence + b, LatexFence, i) {
      if i + 8 <= |Fence + b| {
        // The window starts inside the fence, so `b` begins at its position 3 - i.
        assert (Fence + b)[i..i + 8][3 - i] == b[0];
        assert i == 0 ==> (Fence + b)[i..i + 8][3..8] == b[..5];
      }
    }
    assert [] + Fence + b == Fence + b;
    StripFencesDropsFence([], b);
    StripFencesUntouched(b);
  }
}
