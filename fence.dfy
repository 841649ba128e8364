/**
 * Fenced code blocks in `list_vale_exceptions`
 * (tools/list-linter-exceptions.py:75-112): which lines are fences, and how
 * the three loop variables `in_code_block`, `fence_char` and `fence_count`
 * change from one line to the next.
 */
module Fence {
  import opened Optional

  /** The characters a fence is made of. */
  predicate IsFenceChar(c: char) {
    c == '`' || c == '~'
  }

  /** The fence that opens a line: its character and the length of its run. */
  datatype Opener = Opener(ch: char, count: nat)

  /** The three loop variables that track code blocks. */
  datatype FenceState = FenceState(inCodeBlock: bool, fenceChar: Option<char>, fenceCount: nat)

  /** Their values before the first line. */
  const Outside: FenceState := FenceState(false, None, 0)

  /** Inside a block the opening fence's character and run length are kept;
      outside, `fence_char` is `None` and `fence_count` is 0. */
  predicate Valid(s: FenceState) {
    if s.inCodeBlock then
      s.fenceChar.Some? && IsFenceChar(s.fenceChar.value) && s.fenceCount >= 3
    else
      s.fenceChar.None? && s.fenceCount == 0
  }

  /** The number of copies of `c` that `line` starts with. */
  function LeadingRun(line: string, c: char): (r: nat)
    ensures r <= |line|
    ensures forall k :: 0 <= k < r ==> line[k] == c
    ensures r == |line| || line[r] != c
  {
    if |line| > 0 && line[0] == c then 1 + LeadingRun(line[1..], c) else 0
  }

  /** `re.match(r'^(`{3,}|~{3,})', line)`: the greedy run of three or more
      backticks, else of three or more tildes, at the start of the line. */
  function MatchFence(line: string): (r: Option<Opener>)
    ensures r.Some? <==> |line| >= 3 && IsFenceChar(line[0]) && line[1] == line[0] && line[2] == line[0]
    ensures r.Some? ==> r.value.ch == line[0] && r.value.count == LeadingRun(line, line[0])
  {
    var ticks := LeadingRun(line, '`');
    var tildes := LeadingRun(line, '~');
    if ticks >= 3 then Some(Opener('`', ticks))
    else if tildes >= 3 then Some(Opener('~', tildes))
    else None
  }

  /** What one line does to the block state (source lines 88-108): only a fence
      line changes it, and the state stays well formed. */
  function FenceStep(s: FenceState, line: string): (r: FenceState)
    ensures MatchFence(line).None? ==> r == s
    ensures Valid(s) ==> Valid(r)
  {
    match MatchFence(line)
    case None => s
    case Some(f) =>
      if !s.inCodeBlock then FenceState(true, Some(f.ch), f.count)
      else if Some(f.ch) == s.fenceChar && f.count >= s.fenceCount then Outside
      else s
  }

  /** A line is scanned for tags when it is no fence and lies outside every block
      (source lines 107-112). Inside a block no line is scanned, and a scanned
      line leaves the block state as it was. */
  predicate Eligible(s: FenceState, line: string)
    ensures s.inCodeBlock ==> !Eligible(s, line)
    ensures Eligible(s, line) ==> FenceStep(s, line) == s
  {
    MatchFence(line).None? && !s.inCodeBlock
  }

  /** Outside a block, a line is scanned exactly when it leaves the block state
      as it was, that is when it opens no block. */
  lemma ScannedIffStays(s: FenceState, line: string)
    requires !s.inCodeBlock
    ensures Eligible(s, line) <==> FenceStep(s, line) == s
  {
  }

  /** Outside a block, a line opens one exactly when it is a fence, and the new
      state records the line's fence character and its whole run. */
  lemma OpenRecordsRun(s: FenceState, line: string)
    requires Valid(s) && !s.inCodeBlock
    ensures FenceStep(s, line).inCodeBlock <==> MatchFence(line).Some?
    ensures FenceStep(s, line).inCodeBlock ==>
      FenceStep(s, line) == FenceState(true, Some(line[0]), LeadingRun(line, line[0])) &&
      LeadingRun(line, line[0]) >= 3
    ensures !FenceStep(s, line).inCodeBlock ==> FenceStep(s, line) == s
  {
  }

  /** Inside a block, a line closes it exactly when it starts with at least as many
      copies of the opening character as the opening fence had; any other line,
      fence or not, leaves the state as it was. */
  lemma CloseIff(s: FenceState, line: string)
    requires Valid(s) && s.inCodeBlock
    ensures !FenceStep(s, line).inCodeBlock <==> LeadingRun(line, s.fenceChar.value) >= s.fenceCount
    ensures FenceStep(s, line).inCodeBlock ==> FenceStep(s, line) == s
    ensures !FenceStep(s, line).inCodeBlock ==> FenceStep(s, line) == Outside
  {
    var c := s.fenceChar.value;
    var run := LeadingRun(line, c);
    if run >= s.fenceCount {
      assert line[0] == c && line[1] == c && line[2] == c;
    }
  }
}
