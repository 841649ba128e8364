# Linter-exception scanner, modelled in Dafny

`tools/list-linter-exceptions.py` lists the places where a Markdown file switches
off the Vale prose linter or markdownlint. Its core is `list_vale_exceptions`:

- It splits the file content into lines.
- It walks the lines once, tracking fenced code blocks (a run of three or more
  backticks or tildes opens a block). A fence of the same character and at least
  the same length closes the block.
- On every line that is neither a fence nor inside a block, it searches for four
  HTML-comment tags:
  - `<!-- vale Rule = NO -->`
  - `<!-- vale off -->`
  - `<!-- markdownlint-disable MDnnn -->`
  - `<!-- markdownlint-disable -->`
- Each hit is recorded as a finding: the line number, the rule (or a fixed
  "global" label), and the stripped line.

This project models that function and proves what it promises.

- `text.dfy` (module `Text`): whitespace as CPython's `str.isspace`,
  `str.split('\n')` with its inverse `Join`, and `str.strip()`.
- `pattern.dfy` (module `Pattern`): the fragment of Python regular expressions the
  tags use.
  - A pattern is a sequence of atoms: literal text, one character of a class, or
    a greedy `*` over a class.
  - A match is a *trace*: the positions between consecutive atoms.
  - `Run` is the greedy matcher and `Search` the leftmost search, as `re.search`
    does it.
  - The main result: for a well-formed pattern (every starred class is followed
    by something that cannot start with one of its characters), the greedy run
    is the only match. So a backtracking engine reports exactly it, with the
    same groups.
- `tags.dfy` (module `Tags`): the four tag patterns and the checks built on them.
  - It defines the `Finding` and `Exceptions` records.
  - It builds the findings of one line in the order the source appends them.
  - It proves that the specific and the global pattern of one family never
    match the same comment.
- `fence.dfy` (module `Fence`): `^(`{3,}|~{3,})` as `MatchFence`, and the three
  block-tracking variables (`in_code_block`, `fence_char`, `fence_count`) as a
  `FenceState` value with one step per line.
- `scanner.dfy` (module `Scanner`): `ListValeExceptions`, the loop itself, as a
  method.
  - Its invariants tie the loop variables to `StateAfter` and `ScanLines`:
    functions of the lines read so far.
  - The lemmas there prove properties of the whole scan: well-formedness, line
    numbers, ordering, per-line findings, and silencing by fences.
- `examples.dfy` (module `CommentExamples`) and `files.dfy` (module
  `FileExamples`): generic concrete inputs, with exactly what the scanner reports
  for them.
  - Each tag form is covered with any whitespace the pattern allows.
  - Two tags on one line are covered.
  - A whole file is covered in which a fenced block hides one tag and a later
    tag is reported under its own line number.

Integers are unbounded, as in Python. Strings are sequences of code points.

One comment never yields two findings of one family: `Tags.ValeTagsExclusive`
and `Tags.MarkdownlintTagsExclusive` prove that the specific and the global
pattern never match at the same position. A line holding two comments of one
family, such as `<!-- vale off --> <!-- vale R = NO -->`, does yield two findings
of that family (lines 115-130); `CommentExamples.TwoValeTagsLine` proves this.
The specific finding comes first even though its comment stands second on the
line.

## Model

| member | source | states |
|---|---|---|
| Text.Split | tools/list-linter-exceptions.py:79 | `content.split('\n')`: at least one piece, and no piece contains a newline |
| Text.JoinSplit | tools/list-linter-exceptions.py:79 | joining the pieces with newlines gives back the content, so the lines lose no text |
| Text.SplitJoin | tools/list-linter-exceptions.py:79 | splitting newline-free lines joined by newlines gives back exactly those lines, so line `k` of a file is piece `k` |
| Text.Strip | tools/list-linter-exceptions.py:120 | `line.strip()` is the line with only whitespace before and after it removed, and it neither starts nor ends with whitespace |
| Text.StripUnchanged | tools/list-linter-exceptions.py:120 | a line that neither starts nor ends with whitespace is its own `strip()` |
| Text.IsSpace | tools/list-linter-exceptions.py:64-73 | `\s` and the whitespace `strip()` removes: no space is a character of a Vale rule name or a digit, so the space runs and the name and code runs of a tag never overlap |
| Pattern.Run | tools/list-linter-exceptions.py:115 | the greedy matcher, each atom taking as much as it can: whatever it returns is a match of the pattern at the start position |
| Pattern.Search | tools/list-linter-exceptions.py:115 | `re.search`: a match that starts at the leftmost position where any match starts, is the only match there, and is absent exactly when the pattern matches nowhere |
| Pattern.SearchFinds | tools/list-linter-exceptions.py:115 | a match with no match starting further left is what the search returns |
| Pattern.RunComplete | tools/list-linter-exceptions.py:64-73 | for a well-formed pattern, every match at a position is the greedy one, so its groups are determined |
| Pattern.TraceUnique | tools/list-linter-exceptions.py:64-73 | a well-formed pattern has at most one match at each position |
| Pattern.StarIsMaximal | tools/list-linter-exceptions.py:64-73 | in a match of a well-formed pattern, every `\s*` or `[...]+` run is the longest possible |
| Tags.ValeSpecificWellFormed | tools/list-linter-exceptions.py:64 | `<!--\s*vale\s+([A-Za-z0-9.]+)\s*=\s*NO\s*-->` is well formed: greedy and backtracking matching agree |
| Tags.ValeGlobalWellFormed | tools/list-linter-exceptions.py:67 | `<!--\s*vale\s+off\s*-->` is well formed |
| Tags.MarkdownlintSpecificWellFormed | tools/list-linter-exceptions.py:70 | `<!--\s*markdownlint-disable\s+(MD\d{3})\s*-->` is well formed |
| Tags.MarkdownlintGlobalWellFormed | tools/list-linter-exceptions.py:73 | `<!--\s*markdownlint-disable\s*-->` is well formed |
| Tags.ValeGroup | tools/list-linter-exceptions.py:64 | the captured group of a Vale-specific match is a non-empty run of `[A-Za-z0-9.]` |
| Tags.MarkdownlintGroup | tools/list-linter-exceptions.py:70 | the captured group of a markdownlint-specific match is `MD` and three digits |
| Tags.ValeRule | tools/list-linter-exceptions.py:115-119 | a rule is reported exactly when the Vale-specific pattern matches somewhere; it is a rule name and the group of the leftmost match |
| Tags.ValeOff | tools/list-linter-exceptions.py:124-125 | true exactly when the Vale-global pattern matches somewhere on the line |
| Tags.MarkdownlintRule | tools/list-linter-exceptions.py:133-137 | a code is reported exactly when the markdownlint-specific pattern matches somewhere; it is `MD` and three digits, the group of the leftmost match |
| Tags.MarkdownlintOff | tools/list-linter-exceptions.py:142-143 | true exactly when the markdownlint-global pattern matches somewhere on the line |
| Tags.ValeRuleIs | tools/list-linter-exceptions.py:115-119 | when a Vale-specific match starts leftmost and its group is `g`, the reported rule is `g` |
| Tags.MarkdownlintRuleIs | tools/list-linter-exceptions.py:133-137 | when a markdownlint-specific match starts leftmost and its group is `g`, the reported code is `g` |
| Tags.LabelsAreNotRuleNames | tools/list-linter-exceptions.py:128 | `vale-off (global)` is no Vale rule name and `markdownlint-disable (global)` no markdownlint code, so a global finding is never mistaken for a specific one |
| Tags.Listed | tools/list-linter-exceptions.py:115-130 | one finding per matching pattern, the specific one first and the global one last, each with the line number and the stripped line |
| Tags.ValeFindings | tools/list-linter-exceptions.py:115-130 | at most two Vale findings per line, all with its number and stripped text, each rule a rule name or the global label, and the specific one first when there are two |
| Tags.MarkdownlintFindings | tools/list-linter-exceptions.py:133-148 | the same for markdownlint, with `MD` codes |
| Tags.ScanLine | tools/list-linter-exceptions.py:114-148 | each family holds one finding per pattern of it that matches somewhere on the line, each on that line, carrying it stripped, with a rule of its family's form |
| Tags.ValeFindingsReport | tools/list-linter-exceptions.py:115-130 | a line has a specific Vale finding exactly when the specific pattern matches, and a global one exactly when the global pattern matches |
| Tags.MarkdownlintFindingsReport | tools/list-linter-exceptions.py:133-148 | the same for markdownlint |
| Tags.ValeTagsExclusive | tools/list-linter-exceptions.py:64-67 | no comment is both a specific and a global Vale tag: the two patterns never match at the same position |
| Tags.OffEndsRuleName | tools/list-linter-exceptions.py:64-67 | read as a rule name, the `off` of `vale off -->` ends before the `-->`, where the specific pattern needs `=` |
| Tags.MarkdownlintTagsExclusive | tools/list-linter-exceptions.py:70-73 | no comment is both a specific and a global markdownlint tag |
| Tags.NoFamilyWithout | tools/list-linter-exceptions.py:64-73 | a line without a `v` matches no Vale pattern, and one without an `m` no markdownlint pattern |
| Tags.NoValeWithoutV | tools/list-linter-exceptions.py:115-130 | a line without a `v` yields no Vale finding |
| Tags.NoMarkdownlintWithoutM | tools/list-linter-exceptions.py:133-148 | a line without an `m` yields no markdownlint finding |
| Tags.GlobalValeExcludesRule | tools/list-linter-exceptions.py:115-130 | a line whose only `<`, anywhere on it, opens a `vale off` comment yields no specific Vale finding |
| Tags.RuleValeExcludesGlobal | tools/list-linter-exceptions.py:115-130 | a line whose only `<`, anywhere on it, opens a specific Vale comment yields no global Vale finding |
| Tags.GlobalMarkdownlintExcludesRule | tools/list-linter-exceptions.py:133-148 | a line whose only `<`, anywhere on it, opens a global markdownlint comment yields no specific finding |
| Tags.RuleMarkdownlintExcludesGlobal | tools/list-linter-exceptions.py:133-148 | a line whose only `<`, anywhere on it, opens a specific markdownlint comment yields no global finding |
| Fence.LeadingRun | tools/list-linter-exceptions.py:77 | the length of the run of one character at the start of the line: all of it that character, and the next one not |
| Fence.MatchFence | tools/list-linter-exceptions.py:77 | a fence exactly when the line starts with three equal backticks or tildes; it records that character and the whole run |
| Fence.FenceStep | tools/list-linter-exceptions.py:88-105 | a line that is no fence leaves the block state as it was, and every line keeps the state well formed: in a block, a fence character and a run of at least three; outside, none and 0 |
| Fence.Eligible | tools/list-linter-exceptions.py:107-112 | no line inside a block is scanned for tags, and a scanned line leaves the block state as it was |
| Fence.ScannedIffStays | tools/list-linter-exceptions.py:88-112 | outside a block, a line is scanned exactly when it does not change the block state, that is when it opens no block |
| Fence.OpenRecordsRun | tools/list-linter-exceptions.py:95-99 | outside a block a line opens one exactly when it is a fence, recording its character and its whole run; otherwise nothing changes |
| Fence.CloseIff | tools/list-linter-exceptions.py:100-105 | inside a block a line closes it exactly when it starts with at least as many copies of the opening character; any other line, fence or not, changes nothing |
| Scanner.ListValeExceptions | tools/list-linter-exceptions.py:35-150 | the loop returns `ScanLines` of the content's lines; its invariants keep the three block variables equal to `StateAfter` of the lines read |
| Scanner.StateAfter | tools/list-linter-exceptions.py:82-105 | the block state after any number of lines is well formed |
| Scanner.LineFindings | tools/list-linter-exceptions.py:107-148 | a fence line or a line inside a block contributes nothing; any other line at most two findings per family, each on that line and carrying it stripped |
| Scanner.ScanLines | tools/list-linter-exceptions.py:86-148 | each list holds at most two findings per line of the file |
| Scanner.ScanLinesSound | tools/list-linter-exceptions.py:115-148 | every finding names a line in 1..number of lines, carries that line stripped, and holds a rule name or code of its family or its global label |
| Scanner.ScanLinesOrdered | tools/list-linter-exceptions.py:86-148 | findings come in line order; within a line, a specific finding comes before the global one |
| Scanner.FindingsOfLine | tools/list-linter-exceptions.py:86-148 | the findings on line `n` are exactly those the line contributes, given the state the lines before it leave |
| Scanner.SkippedLineSilent | tools/list-linter-exceptions.py:88-112 | a fence line, or a line inside a block, yields no finding |
| Scanner.UnterminatedBlock | tools/list-linter-exceptions.py:100-112 | a block that no later line closes silences the rest of the file: state and lists stay as they were when it opened |
| Scanner.ScanJoined | tools/list-linter-exceptions.py:79 | scanning newline-free lines joined into one text is scanning those lines |
| CommentExamples.ValeOffLine | tools/list-linter-exceptions.py:124-130 | `<!-- vale off -->`, with any whitespace the pattern allows, yields exactly one global Vale finding, carrying the whole line, and no markdownlint finding |
| CommentExamples.ValeRuleLine | tools/list-linter-exceptions.py:115-121 | `<!-- vale R = NO -->` yields exactly one Vale finding naming `R`, and nothing else |
| CommentExamples.MarkdownlintRuleLine | tools/list-linter-exceptions.py:133-139 | `<!-- markdownlint-disable MDnnn -->` yields exactly one markdownlint finding naming `MDnnn`, and nothing else |
| CommentExamples.MarkdownlintDisableLine | tools/list-linter-exceptions.py:142-148 | `<!-- markdownlint-disable -->` yields exactly one global markdownlint finding, and nothing else |
| CommentExamples.TwoValeTagsLine | tools/list-linter-exceptions.py:115-130 | `<!-- vale off --> <!-- vale R = NO -->` yields two Vale findings, the specific one first |
| FileExamples.OpeningFence | tools/list-linter-exceptions.py:88-93 | a run of three or more fence characters, then text not continuing the run, is a fence of exactly that run |
| FileExamples.FencedLinesScan | tools/list-linter-exceptions.py:86-112 | in a file of an opening fence, a tag line, the closing fence and a tag line, only the last line is reported, as line 4 |
| FileExamples.FencedFileScan | tools/list-linter-exceptions.py:79-148 | the same file as text: `vale off` inside the block is not reported; `markdownlint-disable MDnnn` after it is reported as line 4 |

## Left out

- `main`, argument parsing, the exit codes, `output_normal`, `output_action` and
  `read_markdown_file`. These are input and output around the scanner; the
  content arrives as a parameter.
- The dictionaries of the result. They are the `Exceptions` and `Finding`
  records, with the same two lists and the same three fields in the same order.
- A general regular-expression engine. Only the constructs the five patterns
  use are modelled: literals, `\s`, `\d`, `[A-Za-z0-9.]`, `+`, `*`, `{3}`,
  `{3,}` and one group. The four tag patterns are written as atom sequences;
  the fence pattern is written out as `MatchFence`.
- Tags.MarkdownlintRule: `\d` is taken as the ASCII digits `0`-`9`. Python's
  `\d` on `str` patterns also accepts the other Unicode decimal digits, so a
  code written with, say, Arabic-Indic digits is reported by the source and
  not by the model.
- Text.IsSpace follows CPython's whitespace table for code points. Decoding the
  file into code points is part of `read_markdown_file` and is left out with it.
- CommentExamples.TwoValeTagsLine: shown for one shape of the line (the same
  whitespace run everywhere) and rule names without an `m`. It is an example
  that two findings of one family occur; it does not cover every such line.
- The comment examples use whitespace runs from `\s` and leave out text around
  the comment. `Scanner` and `Tags` state the general case; the examples pin
  down concrete outcomes.
