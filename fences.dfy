/**
 * Removal of Markdown code-fence lines from generated source text: every line
 * that contains a triple backtick is dropped, the others are kept in order.
 */
module Fences {
  import opened PyText

  const Fence: string := "```"

  /** `[line for line in lines if "```" not in line]` */
  function KeepUnfenced(lines: seq<string>): (r: seq<string>)
    ensures |r| <= |lines|
    ensures forall k :: 0 <= k < |r| ==> !Contains(r[k], Fence)
    decreases |lines|
  {
    if |lines| == 0 then []
    else (if Contains(lines[0], Fence) then [] else [lines[0]]) + KeepUnfenced(lines[1..])
  }

  /** The filter keeps a line exactly when the line has no fence in it. */
  lemma {:induction false} KeepUnfencedMembers(lines: seq<string>, y: string)
    ensures y in KeepUnfenced(lines) <==> y in lines && !Contains(y, Fence)
    decreases |lines|
  {
    if |lines| > 0 {
      KeepUnfencedMembers(lines[1..], y);
      assert lines == [lines[0]] + lines[1..];
    }
  }

  /** The filter works line by line and keeps the order: filtering a concatenation is
      concatenating the filtered parts. With the one-line case, this determines it. */
  lemma {:induction false} KeepUnfencedAppend(a: seq<string>, b: seq<string>)
    ensures KeepUnfenced(a + b) == KeepUnfenced(a) + KeepUnfenced(b)
    decreases |a|
  {
    if |a| > 0 {
      KeepUnfencedAppend(a[1..], b);
      assert (a + b)[1..] == a[1..] + b;
    } else {
      assert a + b == b;
    }
  }

  /** Lines without fences pass through unchanged. */
  lemma {:induction false} KeepUnfencedNoFence(lines: seq<string>)
    requires forall k :: 0 <= k < |lines| ==> !Contains(lines[k], Fence)
    ensures KeepUnfenced(lines) == lines
    decreases |lines|
  {
    if |lines| > 0 {
      KeepUnfencedNoFence(lines[1..]);
      assert lines == [lines[0]] + lines[1..];
    }
  }

  /** Filtering twice is filtering once. */
  lemma KeepUnfencedIdempotent(lines: seq<string>)
    ensures KeepUnfenced(KeepUnfenced(lines)) == KeepUnfenced(lines)
  {
    KeepUnfencedNoFence(KeepUnfenced(lines));
  }

  /** `"\n".join(l for l in code.split("\n") if "```" not in l)` */
  function StripFences(code: string): string {
    Join(KeepUnfenced(Split(code, '\n')), "\n")
  }

  /** The kept lines of a split never contain the separator. */
  lemma KeptLinesHaveNoNewline(code: string)
    ensures forall k :: 0 <= k < |KeepUnfenced(Split(code, '\n'))| ==>
      '\n' !in KeepUnfenced(Split(code, '\n'))[k]
  {
    var kept := KeepUnfenced(Split(code, '\n'));
    forall k | 0 <= k < |kept|
      ensures '\n' !in kept[k]
    {
      KeepUnfencedMembers(Split(code, '\n'), kept[k]);
    }
  }

  /** The lines of the stripped text are the unfenced lines of the input, so none has a fence. */
  lemma StripFencesLines(code: string)
    ensures Split(StripFences(code), '\n') ==
      (if KeepUnfenced(Split(code, '\n')) == [] then [""] else KeepUnfenced(Split(code, '\n')))
    ensures forall k :: 0 <= k < |Split(StripFences(code), '\n')| ==>
      !Contains(Split(StripFences(code), '\n')[k], Fence)
  {
    var kept := KeepUnfenced(Split(code, '\n'));
    KeptLinesHaveNoNewline(code);
    if kept != [] {
      SplitJoin(kept, '\n');
    } else {
      assert StripFences(code) == "";
      assert Split("", '\n') == [""];
    }
  }

  /** No line of `text` (split at `'\n'`) contains a fence. */
  predicate FenceFree(text: string) {
    forall k :: 0 <= k < |Split(text, '\n')| ==> !Contains(Split(text, '\n')[k], Fence)
  }

  /** Whatever the input, the stripped text has no fenced line. */
  lemma StripFencesFenceFree(code: string)
    ensures FenceFree(StripFences(code))
  {
    StripFencesLines(code);
  }

  /** Stripping fences from already stripped text changes nothing. */
  lemma StripFencesIdempotent(code: string)
    ensures StripFences(StripFences(code)) == StripFences(code)
  {
    var kept := KeepUnfenced(Split(code, '\n'));
    StripFencesLines(code);
    if kept != [] {
      KeepUnfencedNoFence(kept);
    } else {
      assert KeepUnfenced([""]) == [""];
    }
  }

  /** `"\n".join(l for l in code.splitlines() if "```" not in l)`, the variant used for tests. */
  function StripFencesSplitLines(code: string): string {
    Join(KeepUnfenced(SplitLines(code)), "\n")
  }

  /** The `splitlines` variant leaves no fenced line either. */
  lemma StripFencesSplitLinesFenceFree(code: string)
    ensures FenceFree(StripFencesSplitLines(code))
  {
    var kept := KeepUnfenced(SplitLines(code));
    forall k | 0 <= k < |kept|
      ensures '\n' !in kept[k]
    {
      KeepUnfencedMembers(SplitLines(code), kept[k]);
      assert IsLineBreak('\n');
    }
    if kept != [] {
      SplitJoin(kept, '\n');
    } else {
      assert Split("", '\n') == [""];
    }
  }

  /** On stripped, non-empty model output whose only line boundary is `'\n'`, the two
      variants of the fence filter give the same text. */
  lemma StripFencesVariantsAgree(code: string)
    requires OnlyNewlines(code) && |code| > 0 && !IsSpace(code[|code| - 1])
    ensures StripFencesSplitLines(code) == StripFences(code)
  {
    assert IsSpace('\n');
    SplitLinesIsSplit(code);
  }
}
