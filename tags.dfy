/**
 * The four exception-tag patterns of `list_vale_exceptions` and the findings
 * that one eligible line produces (tools/list-linter-exceptions.py:62-73, 114-148).
 */
module Tags {
  import opened Optional
  import opened Text
  import opened Pattern

  /** One reported exception: its 1-based line, the rule it disables and the stripped line. */
  datatype Finding = Finding(line: nat, rule: string, fullMatch: string)

  /** The two result lists, one per linter family. */
  datatype Exceptions = Exceptions(vale: seq<Finding>, markdownlint: seq<Finding>)

  const ValeGlobalLabel: string := "vale-off (global)"
  const MarkdownlintGlobalLabel: string := "markdownlint-disable (global)"

  /** `<!--\s*vale\s+([A-Za-z0-9.]+)\s*=\s*NO\s*-->`; the group spans atoms 5-6. */
  const ValeSpecific: seq<Atom> :=
    [Lit("<!--"), Star(Space), Lit("vale"), One(Space), Star(Space),
     One(RuleChar), Star(RuleChar),
     Star(Space), Lit("="), Star(Space), Lit("NO"), Star(Space), Lit("-->")]

  /** `<!--\s*vale\s+off\s*-->` */
  const ValeGlobal: seq<Atom> :=
    [Lit("<!--"), Star(Space), Lit("vale"), One(Space), Star(Space),
     Lit("off"), Star(Space), Lit("-->")]

  /** `<!--\s*markdownlint-disable\s+(MD\d{3})\s*-->`; the group spans atoms 5-8. */
  const MarkdownlintSpecific: seq<Atom> :=
    [Lit("<!--"), Star(Space), Lit("markdownlint-disable"), One(Space), Star(Space),
     Lit("MD"), One(Digit), One(Digit), One(Digit),
     Star(Space), Lit("-->")]

  /** `<!--\s*markdownlint-disable\s*-->` */
  const MarkdownlintGlobal: seq<Atom> :=
    [Lit("<!--"), Star(Space), Lit("markdownlint-disable"), Star(Space), Lit("-->")]

  lemma ValeSpecificWellFormed()
    ensures WellFormed(ValeSpecific)
  {
    var p := ValeSpecific;
    forall k | 0 <= k < |p| && p[k].Star? ensures StartsOutsideAt(p[k].cls, p, k + 1) {
      assert k in {1, 4, 6, 7, 9, 11};
      if k == 6 {
        assert StartsOutsideAt(RuleChar, p, 8);
      }
    }
    WellFormedByIndex(p);
  }

  lemma ValeGlobalWellFormed()
    ensures WellFormed(ValeGlobal)
  {
    var p := ValeGlobal;
    forall k | 0 <= k < |p| && p[k].Star? ensures StartsOutsideAt(p[k].cls, p, k + 1) {
      assert k in {1, 4, 6};
    }
    WellFormedByIndex(p);
  }

  lemma MarkdownlintSpecificWellFormed()
    ensures WellFormed(MarkdownlintSpecific)
  {
    var p := MarkdownlintSpecific;
    forall k | 0 <= k < |p| && p[k].Star? ensures StartsOutsideAt(p[k].cls, p, k + 1) {
      assert k in {1, 4, 9};
    }
    WellFormedByIndex(p);
  }

  lemma MarkdownlintGlobalWellFormed()
    ensures WellFormed(MarkdownlintGlobal)
  {
    var p := MarkdownlintGlobal;
    forall k | 0 <= k < |p| && p[k].Star? ensures StartsOutsideAt(p[k].cls, p, k + 1) {
      assert k in {1, 3};
    }
    WellFormedByIndex(p);
  }

  // ---------------------------------------------------------------------------
  // What a match means

  /** `re.search(p, s)` succeeds. */
  ghost predicate Matches(p: seq<Atom>, s: string) {
    exists j, ps :: Trace(p, s, j, ps)
  }

  /** `ps` is the match `re.search(p, s)` reports: no match starts further left. */
  ghost predicate Leftmost(p: seq<Atom>, s: string, ps: seq<int>) {
    |ps| > 0 && Trace(p, s, ps[0], ps) &&
    forall j, qs :: 0 <= j < ps[0] ==> !Trace(p, s, j, qs)
  }

  /** The text between the trace positions `a` and `b` is `g`. */
  predicate GroupIs(s: string, ps: seq<int>, a: int, b: int, g: string) {
    0 <= a <= b < |ps| && 0 <= ps[a] <= ps[b] <= |s| && s[ps[a]..ps[b]] == g
  }

  /** What `[A-Za-z0-9.]+` accepts. */
  predicate IsValeRuleName(g: string) {
    |g| > 0 && forall k :: 0 <= k < |g| ==> IsRuleChar(g[k])
  }

  /** What `MD\d{3}` accepts. */
  predicate IsMarkdownlintCode(g: string) {
    |g| == 5 && g[0] == 'M' && g[1] == 'D' && IsDigit(g[2]) && IsDigit(g[3]) && IsDigit(g[4])
  }

  // ---------------------------------------------------------------------------
  // The four checks

  /** The group of a Vale-specific match is a rule name. */
  lemma ValeGroup(line: string, ps: seq<int>)
    requires |ps| > 0 && Trace(ValeSpecific, line, ps[0], ps)
    ensures 0 <= ps[5] <= ps[7] <= |line|
    ensures IsValeRuleName(line[ps[5]..ps[7]])
  {
    TraceMonotone(ValeSpecific, line, ps[0], ps, 5, 7);
    assert Accepts(ValeSpecific[5], line, ps[5], ps[6]);
    assert Accepts(ValeSpecific[6], line, ps[6], ps[7]);
  }

  /** The group of a markdownlint-specific match is an `MD` code. */
  lemma MarkdownlintGroup(line: string, ps: seq<int>)
    requires |ps| > 0 && Trace(MarkdownlintSpecific, line, ps[0], ps)
    ensures 0 <= ps[5] <= ps[9] <= |line|
    ensures IsMarkdownlintCode(line[ps[5]..ps[9]])
  {
    TraceMonotone(MarkdownlintSpecific, line, ps[0], ps, 5, 9);
    var p := MarkdownlintSpecific;
    assert Accepts(p[5], line, ps[5], ps[6]);
    assert Accepts(p[6], line, ps[6], ps[7]);
    assert Accepts(p[7], line, ps[7], ps[8]);
    assert Accepts(p[8], line, ps[8], ps[9]);
    var g := line[ps[5]..ps[9]];
    assert g == line[ps[5]..ps[6]] + [line[ps[6]], line[ps[7]], line[ps[8]]];
  }

  /** Group 1 of `re.search(vale_specific_pattern, line)`, if it matches. */
  function ValeRule(line: string): (r: Option<string>)
    ensures r.Some? <==> Matches(ValeSpecific, line)
    ensures r.Some? ==> IsValeRuleName(r.value)
    ensures r.Some? ==> exists ps :: Leftmost(ValeSpecific, line, ps) && GroupIs(line, ps, 5, 7, r.value)
  {
    ValeSpecificWellFormed();
    match Search(ValeSpecific, line)
    case None => None
    case Some(ps) =>
      ValeGroup(line, ps);
      var g := line[ps[5]..ps[7]];
      assert GroupIs(line, ps, 5, 7, g);
      Some(g)
  }

  /** `re.search(vale_global_pattern, line)` succeeds. */
  function ValeOff(line: string): (r: bool)
    ensures r <==> Matches(ValeGlobal, line)
  {
    ValeGlobalWellFormed();
    Search(ValeGlobal, line).Some?
  }

  /** Group 1 of `re.search(markdown_specific_pattern, line)`, if it matches. */
  function MarkdownlintRule(line: string): (r: Option<string>)
    ensures r.Some? <==> Matches(MarkdownlintSpecific, line)
    ensures r.Some? ==> IsMarkdownlintCode(r.value)
    ensures r.Some? ==> exists ps :: Leftmost(MarkdownlintSpecific, line, ps) && GroupIs(line, ps, 5, 9, r.value)
  {
    MarkdownlintSpecificWellFormed();
    match Search(MarkdownlintSpecific, line)
    case None => None
    case Some(ps) =>
      MarkdownlintGroup(line, ps);
      var g := line[ps[5]..ps[9]];
      assert GroupIs(line, ps, 5, 9, g);
      Some(g)
  }

  /** `re.search(markdown_global_pattern, line)` succeeds. */
  function MarkdownlintOff(line: string): (r: bool)
    ensures r <==> Matches(MarkdownlintGlobal, line)
  {
    MarkdownlintGlobalWellFormed();
    Search(MarkdownlintGlobal, line).Some?
  }

  /** A specific Vale match with none to its left gives the line's rule. */
  lemma ValeRuleIs(line: string, ps: seq<int>, rule: string)
    requires |ps| > 0 && Trace(ValeSpecific, line, ps[0], ps) && GroupIs(line, ps, 5, 7, rule)
    requires forall j, qs :: 0 <= j < ps[0] ==> !Trace(ValeSpecific, line, j, qs)
    ensures ValeRule(line) == Some(rule)
  {
    ValeSpecificWellFormed();
    SearchFinds(ValeSpecific, line, ps);
  }

  /** A specific markdownlint match with none to its left gives the line's code. */
  lemma MarkdownlintRuleIs(line: string, ps: seq<int>, code: string)
    requires |ps| > 0 && Trace(MarkdownlintSpecific, line, ps[0], ps) && GroupIs(line, ps, 5, 9, code)
    requires forall j, qs :: 0 <= j < ps[0] ==> !Trace(MarkdownlintSpecific, line, j, qs)
    ensures MarkdownlintRule(line) == Some(code)
  {
    MarkdownlintSpecificWellFormed();
    SearchFinds(MarkdownlintSpecific, line, ps);
  }

  lemma LabelsAreNotRuleNames()
    ensures !IsValeRuleName(ValeGlobalLabel) && !IsMarkdownlintCode(MarkdownlintGlobalLabel)
  {
    assert !IsRuleChar(ValeGlobalLabel[4]);
  }

  /** One family's findings for the line numbered `n` whose stripped text is
      `full`: the specific rule, if its pattern matched, is appended first, then
      the global disable, if its pattern matched. */
  function Listed(specific: Option<string>, off: bool, globalLabel: string, n: nat, full: string): (r: seq<Finding>)
    ensures |r| == (if specific.Some? then 1 else 0) + (if off then 1 else 0)
    ensures specific.Some? ==> r[0] == Finding(n, specific.value, full)
    ensures off ==> r[|r| - 1] == Finding(n, globalLabel, full)
    ensures forall f :: f in r ==>
      f.line == n && f.fullMatch == full && (f.rule == globalLabel || (specific.Some? && f.rule == specific.value))
  {
    (if specific.Some? then [Finding(n, specific.value, full)] else []) +
    (if off then [Finding(n, globalLabel, full)] else [])
  }

  /** The four possible lists of one family, spelled out. */
  lemma ListedCases(specific: Option<string>, off: bool, globalLabel: string, n: nat, full: string)
    ensures Listed(specific, off, globalLabel, n, full) ==
      if specific.Some? && off then [Finding(n, specific.value, full), Finding(n, globalLabel, full)]
      else if specific.Some? then [Finding(n, specific.value, full)]
      else if off then [Finding(n, globalLabel, full)]
      else []
  {
  }

  /** The Vale findings of one eligible line numbered `n`: at most two, each
      carrying the line number and the stripped line, each rule a Vale rule name
      or the global label, and the specific one first when there are two. */
  function ValeFindings(line: string, n: nat): (r: seq<Finding>)
    ensures |r| <= 2
    ensures forall f :: f in r ==> f.line == n && f.fullMatch == Strip(line)
    ensures forall f :: f in r ==> f.rule == ValeGlobalLabel || IsValeRuleName(f.rule)
    ensures |r| == 2 ==> r[0].rule != ValeGlobalLabel && r[1].rule == ValeGlobalLabel
  {
    LabelsAreNotRuleNames();
    Listed(ValeRule(line), ValeOff(line), ValeGlobalLabel, n, Strip(line))
  }

  /** The markdownlint findings of one eligible line numbered `n`, in the same shape. */
  function MarkdownlintFindings(line: string, n: nat): (r: seq<Finding>)
    ensures |r| <= 2
    ensures forall f :: f in r ==> f.line == n && f.fullMatch == Strip(line)
    ensures forall f :: f in r ==> f.rule == MarkdownlintGlobalLabel || IsMarkdownlintCode(f.rule)
    ensures |r| == 2 ==> r[0].rule != MarkdownlintGlobalLabel && r[1].rule == MarkdownlintGlobalLabel
  {
    LabelsAreNotRuleNames();
    Listed(MarkdownlintRule(line), MarkdownlintOff(line), MarkdownlintGlobalLabel, n, Strip(line))
  }

  /** Both families' findings for one eligible line numbered `n`: one finding per
      pattern that matches somewhere on the line, each on line `n`, carrying the
      stripped line and a rule of its family's form. */
  function ScanLine(line: string, n: nat): (r: Exceptions)
    ensures |r.vale| == (if Matches(ValeSpecific, line) then 1 else 0) + (if Matches(ValeGlobal, line) then 1 else 0)
    ensures |r.markdownlint| ==
      (if Matches(MarkdownlintSpecific, line) then 1 else 0) + (if Matches(MarkdownlintGlobal, line) then 1 else 0)
    ensures forall f :: f in r.vale ==>
      f.line == n && f.fullMatch == Strip(line) && (f.rule == ValeGlobalLabel || IsValeRuleName(f.rule))
    ensures forall f :: f in r.markdownlint ==>
      f.line == n && f.fullMatch == Strip(line) && (f.rule == MarkdownlintGlobalLabel || IsMarkdownlintCode(f.rule))
  {
    Exceptions(ValeFindings(line, n), MarkdownlintFindings(line, n))
  }

  /** A line yields a specific Vale finding exactly when the specific pattern
      matches somewhere on it, and the global one exactly when `<!-- vale off -->`
      does. */
  lemma ValeFindingsReport(line: string, n: nat)
    ensures Matches(ValeSpecific, line) <==> exists f :: f in ValeFindings(line, n) && f.rule != ValeGlobalLabel
    ensures Matches(ValeGlobal, line) <==> exists f :: f in ValeFindings(line, n) && f.rule == ValeGlobalLabel
  {
    LabelsAreNotRuleNames();
    var r := ValeFindings(line, n);
    if ValeRule(line).Some? {
      assert r[0] in r;
    }
    if ValeOff(line) {
      assert r[|r| - 1] in r;
    }
  }

  /** The same for the two markdownlint patterns. */
  lemma MarkdownlintFindingsReport(line: string, n: nat)
    ensures Matches(MarkdownlintSpecific, line) <==>
      exists f :: f in MarkdownlintFindings(line, n) && f.rule != MarkdownlintGlobalLabel
    ensures Matches(MarkdownlintGlobal, line) <==>
      exists f :: f in MarkdownlintFindings(line, n) && f.rule == MarkdownlintGlobalLabel
  {
    LabelsAreNotRuleNames();
    var r := MarkdownlintFindings(line, n);
    if MarkdownlintRule(line).Some? {
      assert r[0] in r;
    }
    if MarkdownlintOff(line) {
      assert r[|r| - 1] in r;
    }
  }

  /** A line's findings, from the four checks on it. */
  lemma ScanLineOf(line: string, n: nat, valeRule: Option<string>, valeOff: bool,
                   markdownlintRule: Option<string>, markdownlintOff: bool)
    requires ValeRule(line) == valeRule && ValeOff(line) == valeOff
    requires MarkdownlintRule(line) == markdownlintRule && MarkdownlintOff(line) == markdownlintOff
    ensures ScanLine(line, n) ==
      Exceptions(Listed(valeRule, valeOff, ValeGlobalLabel, n, Strip(line)),
                 Listed(markdownlintRule, markdownlintOff, MarkdownlintGlobalLabel, n, Strip(line)))
  {
  }


  // ---------------------------------------------------------------------------
  // Specific and global tags of one family

  /** The comment opener and the word `vale` of a Vale-specific match. */
  lemma ValeSpecificHead(s: string, i: int, ps: seq<int>)
    requires Trace(ValeSpecific, s, i, ps)
    ensures ps[1] == i + 4 <= |s| && ps[2] == SkipWhile(Space, s, i + 4) && ps[3] == ps[2] + 4
    ensures ps[4] == ps[3] + 1 && ps[5] == SkipWhile(Space, s, ps[4])
  {
    LitAt(ValeSpecific, s, i, ps, 0);
    ValeSpecificStar(s, i, ps, 1);
    LitAt(ValeSpecific, s, i, ps, 2);
    OneAt(ValeSpecific, s, i, ps, 3);
    ValeSpecificStar(s, i, ps, 4);
  }

  /** The rule name of a Vale-specific match is the longest run of rule characters. */
  lemma ValeSpecificRuleName(s: string, i: int, ps: seq<int>)
    requires Trace(ValeSpecific, s, i, ps)
    ensures ps[6] == ps[5] + 1 && ps[7] == SkipWhile(RuleChar, s, ps[6])
  {
    OneAt(ValeSpecific, s, i, ps, 5);
    ValeSpecificStar(s, i, ps, 6);
  }

  /** After the rule name and any spaces, a Vale-specific match reads `=`. */
  lemma ValeSpecificEquals(s: string, i: int, ps: seq<int>)
    requires Trace(ValeSpecific, s, i, ps)
    ensures 0 <= ps[7] <= |s| && ps[8] == SkipWhile(Space, s, ps[7]) && ps[8] < |s| && s[ps[8]] == '='
  {
    ValeSpecificStar(s, i, ps, 7);
    LitAt(ValeSpecific, s, i, ps, 8);
  }

  /** Each starred atom of a Vale-specific match takes its longest run; likewise
      for the other three patterns. */
  lemma ValeSpecificStar(s: string, i: int, ps: seq<int>, k: nat)
    requires Trace(ValeSpecific, s, i, ps) && k < |ValeSpecific| && ValeSpecific[k].Star?
    ensures 0 <= ps[k] <= |s| && ps[k + 1] == SkipWhile(ValeSpecific[k].cls, s, ps[k])
  {
    ValeSpecificWellFormed();
    StarIsMaximal(ValeSpecific, s, i, ps, k);
  }

  lemma ValeGlobalStar(s: string, i: int, ps: seq<int>, k: nat)
    requires Trace(ValeGlobal, s, i, ps) && k < |ValeGlobal| && ValeGlobal[k].Star?
    ensures 0 <= ps[k] <= |s| && ps[k + 1] == SkipWhile(ValeGlobal[k].cls, s, ps[k])
  {
    ValeGlobalWellFormed();
    StarIsMaximal(ValeGlobal, s, i, ps, k);
  }

  lemma MarkdownlintSpecificStar(s: string, i: int, ps: seq<int>, k: nat)
    requires Trace(MarkdownlintSpecific, s, i, ps) && k < |MarkdownlintSpecific| && MarkdownlintSpecific[k].Star?
    ensures 0 <= ps[k] <= |s| && ps[k + 1] == SkipWhile(MarkdownlintSpecific[k].cls, s, ps[k])
  {
    MarkdownlintSpecificWellFormed();
    StarIsMaximal(MarkdownlintSpecific, s, i, ps, k);
  }

  lemma MarkdownlintGlobalStar(s: string, i: int, ps: seq<int>, k: nat)
    requires Trace(MarkdownlintGlobal, s, i, ps) && k < |MarkdownlintGlobal| && MarkdownlintGlobal[k].Star?
    ensures 0 <= ps[k] <= |s| && ps[k + 1] == SkipWhile(MarkdownlintGlobal[k].cls, s, ps[k])
  {
    MarkdownlintGlobalWellFormed();
    StarIsMaximal(MarkdownlintGlobal, s, i, ps, k);
  }

  /** The comment opener and the word `vale` of a Vale-global match, as in a
      Vale-specific one. */
  lemma ValeGlobalHead(s: string, i: int, qs: seq<int>)
    requires Trace(ValeGlobal, s, i, qs)
    ensures qs[1] == i + 4 <= |s| && qs[2] == SkipWhile(Space, s, i + 4) && qs[3] == qs[2] + 4
    ensures qs[4] == qs[3] + 1 && qs[5] == SkipWhile(Space, s, qs[4])
  {
    LitAt(ValeGlobal, s, i, qs, 0);
    ValeGlobalStar(s, i, qs, 1);
    LitAt(ValeGlobal, s, i, qs, 2);
    OneAt(ValeGlobal, s, i, qs, 3);
    ValeGlobalStar(s, i, qs, 4);
  }

  /** Then `off`, any spaces, and the `-` of the comment closer. */
  lemma ValeGlobalOff(s: string, i: int, qs: seq<int>)
    requires Trace(ValeGlobal, s, i, qs)
    ensures 0 <= qs[5] && qs[5] + 3 <= |s| && s[qs[5]..qs[5] + 3] == "off" && qs[6] == qs[5] + 3
    ensures qs[7] == SkipWhile(Space, s, qs[6]) && qs[7] < |s| && s[qs[7]] == '-'
  {
    LitAt(ValeGlobal, s, i, qs, 5);
    ValeGlobalStar(s, i, qs, 6);
    LitAt(ValeGlobal, s, i, qs, 7);
  }

  /** A markdownlint-specific match, up to its `MD`. */
  lemma MarkdownlintSpecificShape(s: string, i: int, ps: seq<int>)
    requires Trace(MarkdownlintSpecific, s, i, ps)
    ensures ps[1] == i + 4 <= |s| && ps[2] == SkipWhile(Space, s, i + 4) && ps[3] == ps[2] + 20
    ensures ps[3] < |s| && IsSpace(s[ps[3]]) && ps[4] == ps[3] + 1
    ensures ps[5] == SkipWhile(Space, s, ps[4]) && ps[5] < |s| && s[ps[5]] == 'M'
  {
    LitAt(MarkdownlintSpecific, s, i, ps, 0);
    MarkdownlintSpecificStar(s, i, ps, 1);
    LitAt(MarkdownlintSpecific, s, i, ps, 2);
    OneAt(MarkdownlintSpecific, s, i, ps, 3);
    MarkdownlintSpecificStar(s, i, ps, 4);
    LitAt(MarkdownlintSpecific, s, i, ps, 5);
  }

  /** A markdownlint-global match, atom by atom. */
  lemma MarkdownlintGlobalShape(s: string, i: int, qs: seq<int>)
    requires Trace(MarkdownlintGlobal, s, i, qs)
    ensures qs[1] == i + 4 <= |s| && qs[2] == SkipWhile(Space, s, i + 4) && qs[3] == qs[2] + 20
    ensures qs[4] == SkipWhile(Space, s, qs[3]) && qs[4] < |s| && s[qs[4]] == '-'
  {
    LitAt(MarkdownlintGlobal, s, i, qs, 0);
    MarkdownlintGlobalStar(s, i, qs, 1);
    LitAt(MarkdownlintGlobal, s, i, qs, 2);
    MarkdownlintGlobalStar(s, i, qs, 3);
    LitAt(MarkdownlintGlobal, s, i, qs, 4);
  }

  /** No single comment is both a specific and a global Vale tag: at any one
      position at most one of the two Vale patterns matches. */
  lemma ValeTagsExclusive(s: string, i: int)
    ensures forall ps, qs :: !(Trace(ValeSpecific, s, i, ps) && Trace(ValeGlobal, s, i, qs))
  {
    forall ps, qs | Trace(ValeSpecific, s, i, ps) && Trace(ValeGlobal, s, i, qs) ensures false {
      assert ps[5] == qs[5] by {
        ValeSpecificHead(s, i, ps);
        ValeGlobalHead(s, i, qs);
      }
      ValeGlobalOff(s, i, qs);
      ValeSpecificRuleName(s, i, ps);
      // read as a rule name, the global tag's "off" stops before the spaces that
      // lead to "-->", where the specific tag wants "="
      OffEndsRuleName(s, qs[5], ps[6], qs[7]);
      ValeSpecificEquals(s, i, ps);
    }
  }

  /** `off` followed by optional spaces and `-->` is a complete rule name. */
  lemma OffEndsRuleName(s: string, j: int, k: int, e: int)
    requires 0 <= j && j + 3 <= |s| && s[j..j + 3] == "off" && k == j + 1
    requires e == SkipWhile(Space, s, j + 3) && e < |s| && s[e] == '-'
    ensures SkipWhile(RuleChar, s, k) == j + 3
  {
    assert s[j + 1] == 'f' && s[j + 2] == 'f' by {
      assert s[j..j + 3][1] == 'f' && s[j..j + 3][2] == 'f';
    }
    assert !IsRuleChar(s[j + 3]) by {
      if e > j + 3 {
        assert IsSpace(s[j + 3]);
      }
    }
    SkipWhileUnique(RuleChar, s, k, j + 3);
  }

  /** No single comment is both a specific and a global markdownlint tag. */
  lemma MarkdownlintTagsExclusive(s: string, i: int)
    ensures forall ps, qs :: !(Trace(MarkdownlintSpecific, s, i, ps) && Trace(MarkdownlintGlobal, s, i, qs))
  {
    forall ps, qs | Trace(MarkdownlintSpecific, s, i, ps) && Trace(MarkdownlintGlobal, s, i, qs) ensures false {
      MarkdownlintSpecificShape(s, i, ps);
      MarkdownlintGlobalShape(s, i, qs);
      // after "markdownlint-disable" both skip the same spaces; then "MD" and "-->" clash
    }
  }

  // ---------------------------------------------------------------------------
  // Single lines

  /** Every tag pattern starts with the comment opener, so a match sits on a `<`. */
  lemma StartsAtOpener(p: seq<Atom>, s: string, j: int, ps: seq<int>)
    requires |p| > 0 && p[0] == Lit("<!--") && Trace(p, s, j, ps)
    ensures 0 <= j < |s| && s[j] == '<'
  {
    assert Accepts(p[0], s, ps[0], ps[1]);
    assert s[j] == s[j..j + 4][0];
  }

  /** A literal atom of a match occurs in the text. */
  lemma LiteralOccurs(p: seq<Atom>, s: string, j: int, ps: seq<int>, k: nat)
    requires k < |p| && p[k].Lit? && |p[k].text| > 0 && Trace(p, s, j, ps)
    ensures p[k].text[0] in s
  {
    assert Accepts(p[k], s, ps[k], ps[k + 1]);
    assert s[ps[k]] == s[ps[k]..ps[k + 1]][0];
  }

  /** A line without a `v` has no Vale tag, one without an `m` no markdownlint tag. */
  lemma NoFamilyWithout(s: string)
    ensures 'v' !in s ==> !Matches(ValeSpecific, s) && !Matches(ValeGlobal, s)
    ensures 'm' !in s ==> !Matches(MarkdownlintSpecific, s) && !Matches(MarkdownlintGlobal, s)
  {
    forall j, ps | Trace(ValeSpecific, s, j, ps) ensures 'v' in s {
      LiteralOccurs(ValeSpecific, s, j, ps, 2);
    }
    forall j, ps | Trace(ValeGlobal, s, j, ps) ensures 'v' in s {
      LiteralOccurs(ValeGlobal, s, j, ps, 2);
    }
    forall j, ps | Trace(MarkdownlintSpecific, s, j, ps) ensures 'm' in s {
      LiteralOccurs(MarkdownlintSpecific, s, j, ps, 2);
    }
    forall j, ps | Trace(MarkdownlintGlobal, s, j, ps) ensures 'm' in s {
      LiteralOccurs(MarkdownlintGlobal, s, j, ps, 2);
    }
  }

  lemma NoValeWithoutV(s: string)
    requires 'v' !in s
    ensures ValeRule(s) == None && !ValeOff(s)
  {
    NoFamilyWithout(s);
  }

  lemma NoMarkdownlintWithoutM(s: string)
    requires 'm' !in s
    ensures MarkdownlintRule(s) == None && !MarkdownlintOff(s)
  {
    NoFamilyWithout(s);
  }

  /** On a line whose only `<`, anywhere on it, opens a global Vale tag there is no specific one. */
  lemma GlobalValeExcludesRule(s: string, at: int, qs: seq<int>)
    requires Trace(ValeGlobal, s, at, qs)
    requires forall k :: 0 <= k < |s| && k != at ==> s[k] != '<'
    ensures ValeRule(s) == None
  {
    forall j, ps | Trace(ValeSpecific, s, j, ps) ensures false {
      StartsAtOpener(ValeSpecific, s, j, ps);
      ValeTagsExclusive(s, at);
    }
  }

  /** On a line whose only `<`, anywhere on it, opens a specific Vale tag there is no global one. */
  lemma RuleValeExcludesGlobal(s: string, at: int, ps: seq<int>)
    requires Trace(ValeSpecific, s, at, ps)
    requires forall k :: 0 <= k < |s| && k != at ==> s[k] != '<'
    ensures !ValeOff(s)
  {
    forall j, qs | Trace(ValeGlobal, s, j, qs) ensures false {
      StartsAtOpener(ValeGlobal, s, j, qs);
      ValeTagsExclusive(s, at);
    }
  }

  /** On a line whose only `<`, anywhere on it, opens a global markdownlint tag there is no specific one. */
  lemma GlobalMarkdownlintExcludesRule(s: string, at: int, qs: seq<int>)
    requires Trace(MarkdownlintGlobal, s, at, qs)
    requires forall k :: 0 <= k < |s| && k != at ==> s[k] != '<'
    ensures MarkdownlintRule(s) == None
  {
    forall j, ps | Trace(MarkdownlintSpecific, s, j, ps) ensures false {
      StartsAtOpener(MarkdownlintSpecific, s, j, ps);
      MarkdownlintTagsExclusive(s, at);
    }
  }

  /** On a line whose only `<`, anywhere on it, opens a specific markdownlint tag there is no global one. */
  lemma RuleMarkdownlintExcludesGlobal(s: string, at: int, ps: seq<int>)
    requires Trace(MarkdownlintSpecific, s, at, ps)
    requires forall k :: 0 <= k < |s| && k != at ==> s[k] != '<'
    ensures !MarkdownlintOff(s)
  {
    forall j, qs | Trace(MarkdownlintGlobal, s, j, qs) ensures false {
      StartsAtOpener(MarkdownlintGlobal, s, j, qs);
      MarkdownlintTagsExclusive(s, at);
    }
  }
}
