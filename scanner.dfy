/**
 * `list_vale_exceptions` itself (tools/list-linter-exceptions.py:35-150): the
 * content is split into lines, and one pass over them tracks fenced code
 * blocks and collects the exception tags of every other line.
 */
module Scanner {
  import opened Optional
  import opened Text
  import opened Tags
  import opened Fence

  const NoExceptions: Exceptions := Exceptions([], [])

  /** The block state after the lines `lines`, read from the start of the file;
      it is well formed after any number of lines. */
  function StateAfter(lines: seq<string>): (r: FenceState)
    ensures Valid(r)
    decreases |lines|
  {
    if |lines| == 0 then Outside
    else FenceStep(StateAfter(lines[..|lines| - 1]), lines[|lines| - 1])
  }

  /** What the line numbered `n` contributes when the state before it is `s`:
      nothing for a fence line or a line inside a block, otherwise at most two
      findings per family, each on line `n` and carrying the stripped line. */
  function LineFindings(s: FenceState, line: string, n: nat): (r: Exceptions)
    ensures MatchFence(line).Some? || s.inCodeBlock ==> r == NoExceptions
    ensures |r.vale| <= 2 && |r.markdownlint| <= 2
    ensures forall f :: f in r.vale ==> f.line == n && f.fullMatch == Strip(line)
    ensures forall f :: f in r.markdownlint ==> f.line == n && f.fullMatch == Strip(line)
  {
    if Eligible(s, line) then ScanLine(line, n) else NoExceptions
  }

  /** The lists of `first` followed by those of `second`, family by family. */
  function Append(first: Exceptions, second: Exceptions): Exceptions {
    Exceptions(first.vale + second.vale, first.markdownlint + second.markdownlint)
  }

  /** Both lists after the lines `lines`; line `k` of `lines` is numbered `k + 1`.
      No line adds more than two findings to either list. */
  function ScanLines(lines: seq<string>): (r: Exceptions)
    ensures |r.vale| <= 2 * |lines| && |r.markdownlint| <= 2 * |lines|
    decreases |lines|
  {
    if |lines| == 0 then NoExceptions
    else
      var before := lines[..|lines| - 1];
      Append(ScanLines(before), LineFindings(StateAfter(before), lines[|lines| - 1], |lines|))
  }

  /** One more line: what the loop body of the source does to its variables. */
  lemma Extend(lines: seq<string>, i: int)
    requires 0 <= i < |lines|
    ensures StateAfter(lines[..i + 1]) == FenceStep(StateAfter(lines[..i]), lines[i])
    ensures ScanLines(lines[..i + 1])
         == Append(ScanLines(lines[..i]), LineFindings(StateAfter(lines[..i]), lines[i], i + 1))
  {
    assert lines[..i + 1][..i] == lines[..i];
  }

  lemma ConcatAssoc<T>(a: seq<T>, b: seq<T>, c: seq<T>)
    ensures a + b + c == a + (b + c) && a + [] == a
  {
  }

  /** Scan `content` for Vale and markdownlint exception tags outside fenced code
      blocks. */
  method ListValeExceptions(content: string) returns (exceptions: Exceptions)
    ensures exceptions == ScanLines(Split(content, '\n'))
  {
    var lines := Split(content, '\n');
    var vale: seq<Finding> := [];
    var markdownlint: seq<Finding> := [];
    var inCodeBlock := false;
    var fenceChar: Option<char> := None;
    var fenceCount: nat := 0;
    for i := 0 to |lines|
      invariant FenceState(inCodeBlock, fenceChar, fenceCount) == StateAfter(lines[..i])
      invariant Exceptions(vale, markdownlint) == ScanLines(lines[..i])
    {
      var line, lineNum := lines[i], i + 1;
      Extend(lines, i);
      var fenceMatch := MatchFence(line);
      if fenceMatch.Some? {
        var currentChar, currentCount := fenceMatch.value.ch, fenceMatch.value.count;
        if !inCodeBlock {
          inCodeBlock, fenceChar, fenceCount := true, Some(currentChar), currentCount;
        } else if Some(currentChar) == fenceChar && currentCount >= fenceCount {
          inCodeBlock, fenceChar, fenceCount := false, None, 0;
        }
        ConcatAssoc(vale, [], []);
        ConcatAssoc(markdownlint, [], []);
      } else if !inCodeBlock {
        ghost var vale0, markdownlint0 := vale, markdownlint;
        var full := Strip(line);
        var valeSpecific := ValeRule(line);
        if valeSpecific.Some? {
          vale := vale + [Finding(lineNum, valeSpecific.value, full)];
        }
        ghost var vale1 := vale;
        if ValeOff(line) {
          vale := vale + [Finding(lineNum, ValeGlobalLabel, full)];
        }
        assert vale == vale0 + ValeFindings(line, lineNum) by {
          var first := if valeSpecific.Some? then [Finding(lineNum, valeSpecific.value, full)] else [];
          var second := if ValeOff(line) then [Finding(lineNum, ValeGlobalLabel, full)] else [];
          ConcatAssoc(vale0, first, second);
          ConcatAssoc(vale1, second, []);
        }
        var mdSpecific := MarkdownlintRule(line);
        if mdSpecific.Some? {
          markdownlint := markdownlint + [Finding(lineNum, mdSpecific.value, full)];
        }
        ghost var markdownlint1 := markdownlint;
        if MarkdownlintOff(line) {
          markdownlint := markdownlint + [Finding(lineNum, MarkdownlintGlobalLabel, full)];
        }
        assert markdownlint == markdownlint0 + MarkdownlintFindings(line, lineNum) by {
          var first := if mdSpecific.Some? then [Finding(lineNum, mdSpecific.value, full)] else [];
          var second := if MarkdownlintOff(line) then [Finding(lineNum, MarkdownlintGlobalLabel, full)] else [];
          ConcatAssoc(markdownlint0, first, second);
          ConcatAssoc(markdownlint1, second, []);
        }
      } else {
        ConcatAssoc(vale, [], []);
        ConcatAssoc(markdownlint, [], []);
      }
    }
    assert lines[..|lines|] == lines;
    exceptions := Exceptions(vale, markdownlint);
  }

  // ---------------------------------------------------------------------------
  // What the scan promises

  /** Every finding names a line of the file, carries that line stripped, and
      holds a rule of its family's form: a Vale rule name or `vale-off (global)`,
      an `MD` code or `markdownlint-disable (global)`. */
  ghost predicate Sound(lines: seq<string>, e: Exceptions) {
    (forall f :: f in e.vale ==>
       1 <= f.line <= |lines| && f.fullMatch == Strip(lines[f.line - 1]) &&
       (f.rule == ValeGlobalLabel || IsValeRuleName(f.rule))) &&
    (forall f :: f in e.markdownlint ==>
       1 <= f.line <= |lines| && f.fullMatch == Strip(lines[f.line - 1]) &&
       (f.rule == MarkdownlintGlobalLabel || IsMarkdownlintCode(f.rule)))
  }

  lemma {:induction false} ScanLinesSound(lines: seq<string>)
    ensures Sound(lines, ScanLines(lines))
    decreases |lines|
  {
    if |lines| > 0 {
      var before := lines[..|lines| - 1];
      ScanLinesSound(before);
      var prev := ScanLines(before);
      var add := LineFindings(StateAfter(before), lines[|lines| - 1], |lines|);
      forall f | f in prev.vale + add.vale
        ensures 1 <= f.line <= |lines| && f.fullMatch == Strip(lines[f.line - 1])
      {
        if f in prev.vale {
          assert lines[f.line - 1] == before[f.line - 1];
        }
      }
      forall f | f in prev.markdownlint + add.markdownlint
        ensures 1 <= f.line <= |lines| && f.fullMatch == Strip(lines[f.line - 1])
      {
        if f in prev.markdownlint {
          assert lines[f.line - 1] == before[f.line - 1];
        }
      }
    }
  }

  /** Findings are listed by line; two findings of one line are the specific
      rule followed by the global disable, so no line yields more than two
      findings of one family. */
  predicate Ordered(fs: seq<Finding>, globalLabel: string) {
    forall i, j :: 0 <= i < j < |fs| ==>
      fs[i].line < fs[j].line ||
      (fs[i].line == fs[j].line && fs[i].rule != globalLabel && fs[j].rule == globalLabel)
  }

  lemma OrderedAppend(prev: seq<Finding>, add: seq<Finding>, n: nat, globalLabel: string)
    requires Ordered(prev, globalLabel) && Ordered(add, globalLabel)
    requires forall f :: f in prev ==> f.line < n
    requires forall f :: f in add ==> f.line == n
    ensures Ordered(prev + add, globalLabel)
  {
    var fs := prev + add;
    forall i, j | 0 <= i < j < |fs|
      ensures fs[i].line < fs[j].line ||
        (fs[i].line == fs[j].line && fs[i].rule != globalLabel && fs[j].rule == globalLabel)
    {
      if j < |prev| {
        assert fs[i] == prev[i] && fs[j] == prev[j];
      } else if i < |prev| {
        assert fs[i] in prev && fs[j] in add;
      } else {
        assert fs[i] == add[i - |prev|] && fs[j] == add[j - |prev|];
      }
    }
  }

  /** The findings of the first lines lie on those lines. */
  lemma LinesBefore(lines: seq<string>)
    ensures forall f :: f in ScanLines(lines).vale ==> f.line <= |lines|
    ensures forall f :: f in ScanLines(lines).markdownlint ==> f.line <= |lines|
  {
    ScanLinesSound(lines);
  }

  lemma LineOrdered(s: FenceState, line: string, n: nat)
    ensures Ordered(LineFindings(s, line, n).vale, ValeGlobalLabel)
    ensures Ordered(LineFindings(s, line, n).markdownlint, MarkdownlintGlobalLabel)
    ensures forall f :: f in LineFindings(s, line, n).vale ==> f.line == n
    ensures forall f :: f in LineFindings(s, line, n).markdownlint ==> f.line == n
  {
    if Eligible(s, line) {
      PairOrdered(ValeFindings(line, n), n, ValeGlobalLabel);
      PairOrdered(MarkdownlintFindings(line, n), n, MarkdownlintGlobalLabel);
    }
  }

  lemma PairOrdered(fs: seq<Finding>, n: nat, globalLabel: string)
    requires |fs| <= 2 && forall f :: f in fs ==> f.line == n
    requires |fs| == 2 ==> fs[0].rule != globalLabel && fs[1].rule == globalLabel
    ensures Ordered(fs, globalLabel)
  {
  }

  lemma {:induction false} ScanLinesOrdered(lines: seq<string>)
    ensures Ordered(ScanLines(lines).vale, ValeGlobalLabel)
    ensures Ordered(ScanLines(lines).markdownlint, MarkdownlintGlobalLabel)
    decreases |lines|
  {
    if |lines| > 0 {
      var before := lines[..|lines| - 1];
      ScanLinesOrdered(before);
      var prev := ScanLines(before);
      var add := LineFindings(StateAfter(before), lines[|lines| - 1], |lines|);
      LinesBefore(before);
      LineOrdered(StateAfter(before), lines[|lines| - 1], |lines|);
      OrderedAppend(prev.vale, add.vale, |lines|, ValeGlobalLabel);
      OrderedAppend(prev.markdownlint, add.markdownlint, |lines|, MarkdownlintGlobalLabel);
    }
  }

  /** The findings of `fs` on line `n`, in order. */
  function OnLine(fs: seq<Finding>, n: nat): (r: seq<Finding>)
    ensures forall f :: f in r <==> f in fs && f.line == n
  {
    if |fs| == 0 then []
    else (if fs[0].line == n then [fs[0]] else []) + OnLine(fs[1..], n)
  }

  lemma {:induction false} OnLineAppend(a: seq<Finding>, b: seq<Finding>, n: nat)
    ensures OnLine(a + b, n) == OnLine(a, n) + OnLine(b, n)
    decreases |a|
  {
    if |a| > 0 {
      assert (a + b)[1..] == a[1..] + b;
      OnLineAppend(a[1..], b, n);
    } else {
      assert a + b == b;
    }
  }

  lemma {:induction false} OnLineAll(fs: seq<Finding>, n: nat)
    requires forall f :: f in fs ==> f.line == n
    ensures OnLine(fs, n) == fs
    decreases |fs|
  {
    if |fs| > 0 {
      OnLineAll(fs[1..], n);
      assert fs == [fs[0]] + fs[1..];
    }
  }

  lemma {:induction false} OnLineNone(fs: seq<Finding>, n: nat)
    requires forall f :: f in fs ==> f.line != n
    ensures OnLine(fs, n) == []
    decreases |fs|
  {
    if |fs| > 0 {
      OnLineNone(fs[1..], n);
    }
  }

  /** The findings of line `n` are exactly what that line yields in the block
      state the lines before it leave: a fence line, or a line inside a block,
      yields none, and any other line yields its tags. */
  lemma {:induction false} FindingsOfLine(lines: seq<string>, n: nat)
    requires 1 <= n <= |lines|
    ensures var here := LineFindings(StateAfter(lines[..n - 1]), lines[n - 1], n);
      OnLine(ScanLines(lines).vale, n) == here.vale &&
      OnLine(ScanLines(lines).markdownlint, n) == here.markdownlint
    decreases |lines|
  {
    var before := lines[..|lines| - 1];
    var prev := ScanLines(before);
    var add := LineFindings(StateAfter(before), lines[|lines| - 1], |lines|);
    OnLineAppend(prev.vale, add.vale, n);
    OnLineAppend(prev.markdownlint, add.markdownlint, n);
    if n == |lines| {
      ScanLinesSound(before);
      OnLineNone(prev.vale, n);
      OnLineNone(prev.markdownlint, n);
      OnLineAll(add.vale, n);
      OnLineAll(add.markdownlint, n);
      assert before == lines[..n - 1];
    } else {
      FindingsOfLine(before, n);
      OnLineNone(add.vale, n);
      OnLineNone(add.markdownlint, n);
      assert before[..n - 1] == lines[..n - 1];
      assert before[n - 1] == lines[n - 1];
    }
  }

  /** A fence line, and every line inside a block, yields no finding. */
  lemma SkippedLineSilent(lines: seq<string>, n: nat)
    requires 1 <= n <= |lines|
    requires MatchFence(lines[n - 1]).Some? || StateAfter(lines[..n - 1]).inCodeBlock
    ensures OnLine(ScanLines(lines).vale, n) == [] && OnLine(ScanLines(lines).markdownlint, n) == []
  {
    FindingsOfLine(lines, n);
  }

  /** A block that no later line closes silences the rest of the file: once it
      is open after the first `k` lines, the state and both lists stay as they
      are when no later line starts with at least `fence_count` copies of
      `fence_char`. */
  lemma {:induction false} UnterminatedBlock(lines: seq<string>, k: nat)
    requires k <= |lines| && StateAfter(lines[..k]).inCodeBlock && StateAfter(lines[..k]).fenceChar.Some?
    requires var s := StateAfter(lines[..k]);
      forall j :: k <= j < |lines| ==> LeadingRun(lines[j], s.fenceChar.value) < s.fenceCount
    ensures StateAfter(lines) == StateAfter(lines[..k])
    ensures ScanLines(lines) == ScanLines(lines[..k])
    decreases |lines|
  {
    if |lines| == k {
      assert lines[..k] == lines;
    } else {
      var before := lines[..|lines| - 1];
      assert before[..k] == lines[..k];
      UnterminatedBlock(before, k);
      var s := StateAfter(lines[..k]);
      CloseIff(s, lines[|lines| - 1]);
      var prev := ScanLines(before);
      ConcatAssoc(prev.vale, [], []);
      ConcatAssoc(prev.markdownlint, [], []);
    }
  }

  // ---------------------------------------------------------------------------
  // Whole files

  /** Lines joined with newlines are scanned as those very lines. */
  lemma ScanJoined(lines: seq<string>)
    requires |lines| >= 1 && forall k :: 0 <= k < |lines| ==> '\n' !in lines[k]
    ensures ScanLines(Split(Join(lines, '\n'), '\n')) == ScanLines(lines)
  {
    SplitJoin(lines, '\n');
  }
}
