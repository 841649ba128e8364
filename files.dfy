/**
 * Whole Markdown files run through `list_vale_exceptions`: a tag inside a
 * fenced code block is not reported, and a tag after the block is reported
 * under its own line number.
 */
module FileExamples {
  import opened Optional
  import opened Text
  import opened Tags
  import opened Fence
  import opened Scanner
  import opened CommentExamples

  /** A run of three or more copies of one fence character. */
  predicate FenceRun(run: string, ch: char) {
    |run| >= 3 && IsFenceChar(ch) && forall k :: 0 <= k < |run| ==> run[k] == ch
  }

  /** A fence run followed by an info string that does not continue the run is
      a fence of exactly that run. */
  lemma OpeningFence(run: string, ch: char, info: string)
    requires FenceRun(run, ch)
    requires |info| == 0 || info[0] != ch
    ensures MatchFence(run + info) == Some(Opener(ch, |run|))
  {
    var line := run + info;
    assert line[0] == ch && line[1] == ch && line[2] == ch;
    RunThenOther(run, ch, info);
  }

  lemma {:induction false} RunThenOther(run: string, ch: char, info: string)
    requires forall k :: 0 <= k < |run| ==> run[k] == ch
    requires |info| == 0 || info[0] != ch
    ensures LeadingRun(run + info, ch) == |run|
    decreases |run|
  {
    if |run| > 0 {
      assert (run + info)[1..] == run[1..] + info;
      RunThenOther(run[1..], ch, info);
    } else {
      assert run + info == info;
    }
  }

  /** A comment line starts with `<`, so it is never a fence. */
  lemma CommentIsNoFence(w: seq<string>)
    requires |w| > 0 && w[0] == "<!--"
    ensures MatchFence(Concat(w)).None?
  {
    assert Concat(w) == "<!--" + Concat(w[1..]);
    assert Concat(w)[0] == '<';
  }

  /** The four lines of the file: an opening fence with an info string, a Vale
      comment inside the block, the same fence closing the block, and a
      markdownlint comment after it. */
  function FencedLines(run: string, info: string, vale: string, markdownlint: string): seq<string> {
    [run + info, vale, run, markdownlint]
  }

  /** The block state after each line of the file. */
  lemma FencedStates(run: string, ch: char, info: string, vale: string, markdownlint: string)
    requires FenceRun(run, ch)
    requires |info| == 0 || info[0] != ch
    requires MatchFence(vale).None?
    ensures var lines := FencedLines(run, info, vale, markdownlint);
      StateAfter(lines[..1]) == FenceState(true, Some(ch), |run|) &&
      StateAfter(lines[..2]) == FenceState(true, Some(ch), |run|) &&
      StateAfter(lines[..3]) == Outside
  {
    var lines := FencedLines(run, info, vale, markdownlint);
    Extend(lines, 0);
    Extend(lines, 1);
    Extend(lines, 2);
    assert lines[..0] == [];
    OpeningFence(run, ch, info);
    OpeningFence(run, ch, []);
    assert run + [] == run;
  }

  /** Whatever the Vale line holds, only the markdownlint line after the block
      is reported, as line 4. */
  lemma FencedLinesScan(run: string, ch: char, info: string, vale: string, markdownlint: string)
    requires FenceRun(run, ch)
    requires |info| == 0 || info[0] != ch
    requires MatchFence(vale).None? && MatchFence(markdownlint).None?
    ensures var lines := FencedLines(run, info, vale, markdownlint);
      ScanLines(lines) == ScanLine(markdownlint, 4)
  {
    var lines := FencedLines(run, info, vale, markdownlint);
    FencedStates(run, ch, info, vale, markdownlint);
    assert !Eligible(StateAfter(lines[..0]), lines[0]) by {
      OpeningFence(run, ch, info);
    }
    assert !Eligible(StateAfter(lines[..2]), lines[2]) by {
      OpeningFence(run, ch, []);
      assert run + [] == run;
    }
    OnlyLastScanned(lines);
  }

  /** Of four lines, when only the last is scanned, the scan is that line's. */
  lemma OnlyLastScanned(lines: seq<string>)
    requires |lines| == 4
    requires forall k :: 0 <= k < 3 ==> !Eligible(StateAfter(lines[..k]), lines[k])
    requires Eligible(StateAfter(lines[..3]), lines[3])
    ensures ScanLines(lines) == ScanLine(lines[3], 4)
  {
    assert ScanLines(lines[..0]) == NoExceptions by {
      assert lines[..0] == [];
    }
    SilentStep(lines, 0);
    SilentStep(lines, 1);
    SilentStep(lines, 2);
    FirstFindingsStep(lines, 3);
    assert lines[..4] == lines;
  }

  /** A line that is not scanned adds nothing to a scan that found nothing. */
  lemma SilentStep(lines: seq<string>, i: int)
    requires 0 <= i < |lines| && ScanLines(lines[..i]) == NoExceptions
    requires !Eligible(StateAfter(lines[..i]), lines[i])
    ensures ScanLines(lines[..i + 1]) == NoExceptions
  {
    Extend(lines, i);
  }

  /** The first scanned line's findings are all the scan has found so far. */
  lemma FirstFindingsStep(lines: seq<string>, i: int)
    requires 0 <= i < |lines| && ScanLines(lines[..i]) == NoExceptions
    requires Eligible(StateAfter(lines[..i]), lines[i])
    ensures ScanLines(lines[..i + 1]) == ScanLine(lines[i], i + 1)
  {
    Extend(lines, i);
    AppendNothing(ScanLine(lines[i], i + 1));
  }

  /** Nothing followed by `e` is `e`. */
  lemma AppendNothing(e: Exceptions)
    ensures Append(NoExceptions, e) == e
  {
    assert [] + e.vale == e.vale && [] + e.markdownlint == e.markdownlint;
  }

  /** The file as text, with `<!-- vale off -->` inside a backtick or tilde
      block and `<!-- markdownlint-disable <code> -->` after it: the Vale tag
      is not reported, the markdownlint tag is, under line 4. */
  lemma FencedFileScan(run: string, ch: char, info: string, a: string, b: string, c: string, code: string)
    requires FenceRun(run, ch)
    requires |info| == 0 || info[0] != ch
    requires AllSpace(a) && AllSpace(b) && AllSpace(c) && |b| > 0 && IsMarkdownlintCode(code)
    requires '\n' !in info && '\n' !in a && '\n' !in b && '\n' !in c
    ensures var lines := FencedLines(run, info, ValeOffText(a, b, c), MarkdownlintRuleText(a, b, code, c));
      ScanLines(Split(Join(lines, '\n'), '\n')) == Exceptions([], [Finding(4, code, lines[3])])
  {
    var vale := ValeOffText(a, b, c);
    var markdownlint := MarkdownlintRuleText(a, b, code, c);
    var lines := FencedLines(run, info, vale, markdownlint);
    CommentsLackNewline(a, b, c, code);
    SplitFenced(run, ch, info, vale, markdownlint);
    CommentIsNoFence(ValeOffPieces(a, b, c));
    CommentIsNoFence(MarkdownlintRulePieces(a, b, code, c));
    FencedLinesScan(run, ch, info, vale, markdownlint);
    MarkdownlintRuleLine(a, b, code, c, 4);
  }

  lemma CommentsLackNewline(a: string, b: string, c: string, code: string)
    requires IsMarkdownlintCode(code)
    requires '\n' !in a && '\n' !in b && '\n' !in c
    ensures '\n' !in ValeOffText(a, b, c) && '\n' !in MarkdownlintRuleText(a, b, code, c)
  {
    assert '\n' !in code;
    ConcatLacks(ValeOffPieces(a, b, c), '\n');
    ConcatLacks(MarkdownlintRulePieces(a, b, code, c), '\n');
  }

  /** Joined with newlines and split again, the four lines come back. */
  lemma SplitFenced(run: string, ch: char, info: string, vale: string, markdownlint: string)
    requires FenceRun(run, ch)
    requires '\n' !in info && '\n' !in vale && '\n' !in markdownlint
    ensures var lines := FencedLines(run, info, vale, markdownlint);
      Split(Join(lines, '\n'), '\n') == lines
  {
    var lines := FencedLines(run, info, vale, markdownlint);
    assert '\n' !in run + info;
    SplitJoin(lines, '\n');
  }
}
