/** The four exception comments the tool looks for, written with any run of
    whitespace where the patterns allow one, and what a line holding exactly
    one of them yields. */
module CommentExamples {
  import opened Optional
  import opened Text
  import opened Pattern
  import opened Tags

  // ---------------------------------------------------------------------------
  // Building a match from the pieces of a line

  /** `w` is a text that atom `a` accepts on its own. */
  predicate Covers(a: Atom, w: string) {
    match a
    case Lit(t) => w == t
    case One(c) => |w| == 1 && In(c, w[0])
    case Star(c) => forall m :: 0 <= m < |w| ==> In(c, w[m])
  }

  /** The pieces `w` written one after the other. */
  function Concat(w: seq<string>): string {
    if |w| == 0 then [] else w[0] + Concat(w[1..])
  }

  /** Cutting one piece in two leaves the text unchanged. */
  lemma {:induction false} ConcatSplit(w: seq<string>, i: int, x: string, y: string)
    requires 0 <= i < |w| && w[i] == x + y
    ensures Concat(w[..i] + [x, y] + w[i + 1..]) == Concat(w)
    decreases i
  {
    var v := w[..i] + [x, y] + w[i + 1..];
    if i == 0 {
      assert v == [x] + ([y] + w[1..]);
      assert v[1..] == [y] + w[1..];
      assert v[2..] == w[1..];
    } else {
      ConcatSplit(w[1..], i - 1, x, y);
      assert v[1..] == w[1..][..i - 1] + [x, y] + w[1..][i..];
    }
  }

  /** A character that no piece contains is not in the text. */
  lemma {:induction false} ConcatLacks(w: seq<string>, ch: char)
    requires forall k :: 0 <= k < |w| ==> ch !in w[k]
    ensures ch !in Concat(w)
    decreases |w|
  {
    if |w| > 0 {
      ConcatLacks(w[1..], ch);
      assert ch !in w[0];
    }
  }

  /** The text ends with the last character of its last piece. */
  lemma {:induction false} ConcatLast(w: seq<string>)
    requires |w| > 0 && |w[|w| - 1]| > 0
    ensures |Concat(w)| > 0 && Concat(w)[|Concat(w)| - 1] == w[|w| - 1][|w[|w| - 1]| - 1]
    decreases |w|
  {
    if |w| > 1 {
      ConcatLast(w[1..]);
    }
  }

  /** The positions between the pieces `w` when the first starts at `x`. */
  function Offsets(x: int, w: seq<string>): (r: seq<int>)
    ensures |r| == |w| + 1 && r[0] == x
    ensures r[|w|] == x + |Concat(w)|
    decreases |w|
  {
    if |w| == 0 then [x] else [x] + Offsets(x + |w[0]|, w[1..])
  }

  /** Pieces that the atoms accept one by one make a match of the whole pattern. */
  lemma {:induction false} TraceOfPieces(p: seq<Atom>, pre: string, w: seq<string>, post: string)
    requires |w| == |p|
    requires forall k :: 0 <= k < |p| ==> Covers(p[k], w[k])
    ensures Trace(p, pre + Concat(w) + post, |pre|, Offsets(|pre|, w))
    ensures forall k :: 0 <= k < |w| ==>
      Between(pre + Concat(w) + post, Offsets(|pre|, w)[k], Offsets(|pre|, w)[k + 1], w[k])
    decreases |p|
  {
    if |p| > 0 {
      var s := pre + Concat(w) + post;
      assert s == (pre + w[0]) + Concat(w[1..]) + post;
      forall k | 0 <= k < |p[1..]| ensures Covers(p[1..][k], w[1..][k]) {
        assert Covers(p[k + 1], w[k + 1]);
      }
      TraceOfPieces(p[1..], pre + w[0], w[1..], post);
      PieceAccepted(p[0], pre, w[0], Concat(w[1..]) + post);
      assert s == pre + w[0] + (Concat(w[1..]) + post);
      TraceCons(p, s, |pre|, Offsets(|pre| + |w[0]|, w[1..]));
      LaterSlices(pre, w, post);
      assert Offsets(|pre|, w)[1] == |pre| + |w[0]|;
    }
  }

  /** `t` is the slice of `s` from `x` to `y`. */
  predicate Between(s: string, x: int, y: int, t: string) {
    0 <= x <= y <= |s| && s[x..y] == t
  }

  /** A piece its atom covers is accepted where it sits. */
  lemma PieceAccepted(a: Atom, pre: string, piece: string, post: string)
    requires Covers(a, piece)
    ensures Accepts(a, pre + piece + post, |pre|, |pre| + |piece|)
    ensures (pre + piece + post)[|pre|..|pre| + |piece|] == piece
  {
    var s := pre + piece + post;
    var x, y := |pre|, |pre| + |piece|;
    assert s[x..y] == piece;
    if a.One? {
      assert s[x] == piece[0];
    } else if a.Star? {
      forall m | x <= m < y ensures In(a.cls, s[m]) {
        assert s[m] == piece[m - x];
      }
    }
  }

  /** The slices after the first piece, seen from the whole text. */
  lemma LaterSlices(pre: string, w: seq<string>, post: string)
    requires |w| > 0
    requires forall k :: 0 <= k < |w[1..]| ==>
      Between((pre + w[0]) + Concat(w[1..]) + post, Offsets(|pre| + |w[0]|, w[1..])[k],
              Offsets(|pre| + |w[0]|, w[1..])[k + 1], w[1..][k])
    ensures forall k :: 0 < k < |w| ==>
      Between(pre + Concat(w) + post, Offsets(|pre|, w)[k], Offsets(|pre|, w)[k + 1], w[k])
  {
    var s := pre + Concat(w) + post;
    assert s == (pre + w[0]) + Concat(w[1..]) + post;
    var o, o' := Offsets(|pre|, w), Offsets(|pre| + |w[0]|, w[1..]);
    forall k | 0 < k < |w| ensures Between(s, o[k], o[k + 1], w[k]) {
      assert o[k] == o'[k - 1] && o[k + 1] == o'[k] && w[k] == w[1..][k - 1];
    }
  }

  /** The only `<` of `s` is its first character. */
  predicate SingleOpener(s: string) {
    forall k :: 0 < k < |s| ==> s[k] != '<'
  }

  /** A comment whose inner pieces hold no `<` is its own `strip()` and has one opener. */
  lemma CommentShape(w: seq<string>)
    requires |w| >= 2 && w[0] == "<!--" && w[|w| - 1] == "-->"
    requires forall k :: 1 <= k < |w| ==> '<' !in w[k]
    ensures SingleOpener(Concat(w)) && Strip(Concat(w)) == Concat(w)
  {
    var s := Concat(w);
    assert s == "<!--" + Concat(w[1..]);
    assert SingleOpener(s) by {
      ConcatLacks(w[1..], '<');
      forall k | 0 < k < |s| ensures s[k] != '<' {
        if k >= 4 {
          assert s[k] == Concat(w[1..])[k - 4];
        }
      }
    }
    assert Strip(s) == s by {
      ConcatLast(w);
      assert s[0] == '<';
      StripUnchanged(s);
    }
  }

  lemma SingleOpenerAppend(s: string, t: string)
    requires SingleOpener(s) && '<' !in t
    ensures SingleOpener(s + t)
  {
    forall k | |s| <= k < |s + t| ensures (s + t)[k] != '<' {
      assert (s + t)[k] == t[k - |s|];
    }
  }

  lemma SpacesLack(a: string, ch: char)
    requires AllSpace(a) && !IsSpace(ch)
    ensures ch !in a
  {
    forall k | 0 <= k < |a| ensures a[k] != ch {
      assert IsSpace(a[k]);
    }
  }

  /** The word after `<!--` and its whitespace starts where that whitespace ends. */
  lemma WordAfterOpener(p: seq<Atom>, s: string, j: int, ps: seq<int>)
    requires WellFormed(p) && |p| >= 3 && p[0] == Lit("<!--") && p[1] == Star(Space)
    requires p[2].Lit? && |p[2].text| > 0 && Trace(p, s, j, ps)
    ensures 0 <= j && j + 4 <= |s| && ps[2] == SkipWhile(Space, s, j + 4)
    ensures ps[2] < |s| && s[ps[2]] == p[2].text[0]
  {
    assert Accepts(p[0], s, ps[0], ps[1]);
    StarIsMaximal(p, s, j, ps, 1);
    assert Accepts(p[2], s, ps[2], ps[3]);
    assert s[ps[2]] == s[ps[2]..ps[3]][0];
  }

  /** A line whose one comment opens with the word `vale` holds no markdownlint tag,
      whatever else it contains. */
  lemma NoMarkdownlintInValeComment(s: string, k: int)
    requires SingleOpener(s) && 4 <= k < |s| && s[k] == 'v'
    requires forall m :: 4 <= m < k ==> IsSpace(s[m])
    ensures MarkdownlintRule(s) == None && !MarkdownlintOff(s)
  {
    SkipWhileUnique(Space, s, 4, k);
    MarkdownlintSpecificWellFormed();
    MarkdownlintGlobalWellFormed();
    forall j, ps | Trace(MarkdownlintSpecific, s, j, ps) ensures false {
      StartsAtOpener(MarkdownlintSpecific, s, j, ps);
      WordAfterOpener(MarkdownlintSpecific, s, j, ps);
    }
    forall j, ps | Trace(MarkdownlintGlobal, s, j, ps) ensures false {
      StartsAtOpener(MarkdownlintGlobal, s, j, ps);
      WordAfterOpener(MarkdownlintGlobal, s, j, ps);
    }
  }

  // ---------------------------------------------------------------------------
  // `<!-- vale off -->`

  function ValeOffPieces(a: string, b: string, c: string): seq<string> {
    ["<!--", a, "vale", b, "off", c, "-->"]
  }

  /** `<!-- vale off -->` with whitespace runs `a`, `b`, `c`. */
  function ValeOffText(a: string, b: string, c: string): string {
    Concat(ValeOffPieces(a, b, c))
  }

  lemma ValeOffMatch(a: string, b: string, c: string, pre: string, post: string)
    requires AllSpace(a) && AllSpace(b) && AllSpace(c) && |b| > 0
    ensures exists qs :: Trace(ValeGlobal, pre + ValeOffText(a, b, c) + post, |pre|, qs)
  {
    var v := ValeOffPieces(a, b, c);
    var w := ["<!--", a, "vale", b[..1], b[1..], "off", c, "-->"];
    assert w == v[..3] + [b[..1], b[1..]] + v[4..];
    ConcatSplit(v, 3, b[..1], b[1..]);
    var p := ValeGlobal;
    forall k | 0 <= k < |p| ensures Covers(p[k], w[k]) {
      assert k in {0, 1, 2, 3, 4, 5, 6, 7};
    }
    TraceOfPieces(p, pre, w, post);
    assert Trace(p, pre + ValeOffText(a, b, c) + post, |pre|, Offsets(|pre|, w));
  }

  lemma ValeOffOpener(a: string, b: string, c: string)
    requires AllSpace(a) && AllSpace(b) && AllSpace(c)
    ensures var line := ValeOffText(a, b, c);
      SingleOpener(line) && Strip(line) == line
  {
    var w := ValeOffPieces(a, b, c);
    assert SingleOpener(Concat(w)) && Strip(Concat(w)) == Concat(w) by {
      SpacesLack(a, '<'); SpacesLack(b, '<'); SpacesLack(c, '<');
      forall k | 1 <= k < |w| ensures '<' !in w[k] {
        assert k in {1, 2, 3, 4, 5, 6};
      }
      CommentShape(w);
    }
  }

  lemma ValeOffLacks(a: string, b: string, c: string)
    requires AllSpace(a) && AllSpace(b) && AllSpace(c)
    ensures 'm' !in ValeOffText(a, b, c)
  {
    var w := ValeOffPieces(a, b, c);
    assert 'm' !in Concat(w) by {
      SpacesLack(a, 'm'); SpacesLack(b, 'm'); SpacesLack(c, 'm');
      forall k | 0 <= k < |w| ensures 'm' !in w[k] {
        assert k in {0, 1, 2, 3, 4, 5, 6};
      }
      ConcatLacks(w, 'm');
    }
  }

  /** A global Vale comment, with any whitespace the pattern allows, is one
      global Vale finding carrying the whole line, and nothing else. */
  lemma ValeOffLine(a: string, b: string, c: string, n: nat)
    requires AllSpace(a) && AllSpace(b) && AllSpace(c) && |b| > 0
    ensures var line := ValeOffText(a, b, c);
      ScanLine(line, n) == Exceptions([Finding(n, ValeGlobalLabel, line)], [])
  {
    var line := ValeOffText(a, b, c);
    assert ValeOff(line) && ValeRule(line) == None by {
      ValeOffMatch(a, b, c, "", "");
      assert "" + line + "" == line;
      var qs :| Trace(ValeGlobal, line, 0, qs);
      ValeOffOpener(a, b, c);
      GlobalValeExcludesRule(line, 0, qs);
    }
    assert MarkdownlintRule(line) == None && !MarkdownlintOff(line) by {
      ValeOffLacks(a, b, c);
      NoMarkdownlintWithoutM(line);
    }
    ValeOffOpener(a, b, c);
    ScanLineOf(line, n, None, true, None, false);
    ListedCases(None, true, ValeGlobalLabel, n, line);
    ListedCases(None, false, MarkdownlintGlobalLabel, n, line);
  }


  // ---------------------------------------------------------------------------
  // `<!-- vale Rule = NO -->`

  function ValeRulePieces(a: string, b: string, rule: string, c: string, d: string, e: string): seq<string> {
    ["<!--", a, "vale", b, rule, c, "=", d, "NO", e, "-->"]
  }

  /** `<!-- vale <rule> = NO -->` with whitespace runs `a` to `e`. */
  function ValeRuleText(a: string, b: string, rule: string, c: string, d: string, e: string): string {
    Concat(ValeRulePieces(a, b, rule, c, d, e))
  }

  /** The whitespace runs of a specific Vale comment; the one after `vale` is not empty. */
  predicate ValeRuleGaps(a: string, b: string, c: string, d: string, e: string) {
    AllSpace(a) && AllSpace(b) && AllSpace(c) && AllSpace(d) && AllSpace(e) && |b| > 0
  }

  lemma ValeRuleMatch(a: string, b: string, rule: string, c: string, d: string, e: string,
                      pre: string, post: string)
    requires ValeRuleGaps(a, b, c, d, e) && IsValeRuleName(rule)
    ensures var s := pre + ValeRuleText(a, b, rule, c, d, e) + post;
      exists ps :: Trace(ValeSpecific, s, |pre|, ps) && GroupIs(s, ps, 5, 7, rule)
  {
    var v := ValeRulePieces(a, b, rule, c, d, e);
    var u := ["<!--", a, "vale", b[..1], b[1..], rule, c, "=", d, "NO", e, "-->"];
    var w := ["<!--", a, "vale", b[..1], b[1..], rule[..1], rule[1..], c, "=", d, "NO", e, "-->"];
    assert u == v[..3] + [b[..1], b[1..]] + v[4..];
    ConcatSplit(v, 3, b[..1], b[1..]);
    assert w == u[..5] + [rule[..1], rule[1..]] + u[6..];
    ConcatSplit(u, 5, rule[..1], rule[1..]);
    var p := ValeSpecific;
    forall k | 0 <= k < |p| ensures Covers(p[k], w[k]) {
      assert k in {0, 1, 2, 3, 4, 5, 6, 7, 8, 9, 10, 11, 12};
    }
    TraceOfPieces(p, pre, w, post);
    var s, ps := pre + Concat(w) + post, Offsets(|pre|, w);
    assert s[ps[5]..ps[7]] == s[ps[5]..ps[6]] + s[ps[6]..ps[7]];
    assert s[ps[5]..ps[6]] == w[5] && s[ps[6]..ps[7]] == w[6];
    assert GroupIs(s, ps, 5, 7, rule);
    assert s == pre + ValeRuleText(a, b, rule, c, d, e) + post;
  }

  lemma ValeRuleOpener(a: string, b: string, rule: string, c: string, d: string, e: string)
    requires ValeRuleGaps(a, b, c, d, e) && IsValeRuleName(rule)
    ensures var line := ValeRuleText(a, b, rule, c, d, e);
      SingleOpener(line) && Strip(line) == line
  {
    var w := ValeRulePieces(a, b, rule, c, d, e);
    SpacesLack(a, '<'); SpacesLack(b, '<'); SpacesLack(c, '<'); SpacesLack(d, '<'); SpacesLack(e, '<');
    forall k | 0 <= k < |rule| ensures rule[k] != '<' {
      assert IsRuleChar(rule[k]);
    }
    forall k | 1 <= k < |w| ensures '<' !in w[k] {
      assert k in {1, 2, 3, 4, 5, 6, 7, 8, 9, 10};
    }
    CommentShape(w);
  }

  /** In a specific Vale comment the word `vale` follows `<!--` and whitespace. */
  lemma ValeRuleWord(a: string, b: string, rule: string, c: string, d: string, e: string)
    requires AllSpace(a)
    ensures var line := ValeRuleText(a, b, rule, c, d, e);
      4 + |a| < |line| && line[4 + |a|] == 'v' && forall m :: 4 <= m < 4 + |a| ==> IsSpace(line[m])
  {
    var w := ValeRulePieces(a, b, rule, c, d, e);
    var s := Concat(w);
    assert s == "<!--" + (a + ("vale" + Concat(w[3..]))) by {
      assert Concat(w[1..]) == a + Concat(w[2..]);
      assert Concat(w[2..]) == "vale" + Concat(w[3..]);
    }
    assert s[4 + |a|] == 'v';
    forall m | 4 <= m < 4 + |a| ensures IsSpace(s[m]) {
      assert s[m] == a[m - 4];
    }
  }

  /** The Vale checks on a specific Vale comment: its rule, and no global disable. */
  lemma ValeRuleFound(a: string, b: string, rule: string, c: string, d: string, e: string)
    requires ValeRuleGaps(a, b, c, d, e) && IsValeRuleName(rule)
    ensures var line := ValeRuleText(a, b, rule, c, d, e);
      ValeRule(line) == Some(rule) && !ValeOff(line)
  {
    var line := ValeRuleText(a, b, rule, c, d, e);
    var ps: seq<int> :| Trace(ValeSpecific, line, 0, ps) && GroupIs(line, ps, 5, 7, rule) by {
      ValeRuleMatch(a, b, rule, c, d, e, "", "");
      assert "" + line + "" == line;
    }
    ValeRuleOpener(a, b, rule, c, d, e);
    SingleValeRule(line, ps, rule);
  }

  /** A line with one opener and a specific Vale match at its start names that
      rule and has no global Vale tag. */
  lemma SingleValeRule(line: string, ps: seq<int>, rule: string)
    requires Trace(ValeSpecific, line, 0, ps) && GroupIs(line, ps, 5, 7, rule) && SingleOpener(line)
    ensures ValeRule(line) == Some(rule) && !ValeOff(line)
  {
    ValeRuleIs(line, ps, rule);
    RuleValeExcludesGlobal(line, 0, ps);
  }

  /** A specific Vale comment holds no markdownlint tag. */
  lemma ValeRuleNoMarkdownlint(a: string, b: string, rule: string, c: string, d: string, e: string)
    requires ValeRuleGaps(a, b, c, d, e) && IsValeRuleName(rule)
    ensures var line := ValeRuleText(a, b, rule, c, d, e);
      MarkdownlintRule(line) == None && !MarkdownlintOff(line)
  {
    var line := ValeRuleText(a, b, rule, c, d, e);
    assert SingleOpener(line) by {
      ValeRuleOpener(a, b, rule, c, d, e);
    }
    ValeRuleWord(a, b, rule, c, d, e);
    NoMarkdownlintInValeComment(line, 4 + |a|);
  }

  /** A specific Vale comment, with any whitespace the pattern allows, is one
      Vale finding naming exactly its rule and carrying the whole line. */
  lemma ValeRuleLine(a: string, b: string, rule: string, c: string, d: string, e: string, n: nat)
    requires ValeRuleGaps(a, b, c, d, e) && IsValeRuleName(rule)
    ensures var line := ValeRuleText(a, b, rule, c, d, e);
      ScanLine(line, n) == Exceptions([Finding(n, rule, line)], [])
  {
    var line := ValeRuleText(a, b, rule, c, d, e);
    ValeRuleFound(a, b, rule, c, d, e);
    ValeRuleNoMarkdownlint(a, b, rule, c, d, e);
    ValeRuleOpener(a, b, rule, c, d, e);
    ScanLineOf(line, n, Some(rule), false, None, false);
    ListedCases(Some(rule), false, ValeGlobalLabel, n, line);
    ListedCases(None, false, MarkdownlintGlobalLabel, n, line);
  }



  // ---------------------------------------------------------------------------
  // `<!-- markdownlint-disable MD013 -->`

  function MarkdownlintRulePieces(a: string, b: string, code: string, c: string): seq<string> {
    ["<!--", a, "markdownlint-disable", b, code, c, "-->"]
  }

  /** `<!-- markdownlint-disable <code> -->` with whitespace runs `a`, `b`, `c`. */
  function MarkdownlintRuleText(a: string, b: string, code: string, c: string): string {
    Concat(MarkdownlintRulePieces(a, b, code, c))
  }

  /** The same text cut finer: the space run after the keyword into its first
      character and the rest, and the code into `MD` and its three digits. */
  function MarkdownlintRuleFinePieces(a: string, b: string, code: string, c: string): seq<string>
    requires |b| > 0 && |code| == 5
  {
    ["<!--", a, "markdownlint-disable", b[..1], b[1..], "MD", code[2..3], code[3..4], code[4..], c, "-->"]
  }

  lemma MarkdownlintRuleFine(a: string, b: string, code: string, c: string)
    requires |b| > 0 && IsMarkdownlintCode(code)
    ensures Concat(MarkdownlintRuleFinePieces(a, b, code, c)) == MarkdownlintRuleText(a, b, code, c)
  {
    var v := MarkdownlintRulePieces(a, b, code, c);
    var u1 := ["<!--", a, "markdownlint-disable", b[..1], b[1..], code, c, "-->"];
    var u2 := ["<!--", a, "markdownlint-disable", b[..1], b[1..], "MD", code[2..], c, "-->"];
    var u3 := ["<!--", a, "markdownlint-disable", b[..1], b[1..], "MD", code[2..3], code[3..], c, "-->"];
    var w := MarkdownlintRuleFinePieces(a, b, code, c);
    assert u1 == v[..3] + [b[..1], b[1..]] + v[4..];
    ConcatSplit(v, 3, b[..1], b[1..]);
    assert code == "MD" + code[2..];
    assert u2 == u1[..5] + ["MD", code[2..]] + u1[6..];
    ConcatSplit(u1, 5, "MD", code[2..]);
    assert code[2..] == code[2..3] + code[3..];
    assert u3 == u2[..6] + [code[2..3], code[3..]] + u2[7..];
    ConcatSplit(u2, 6, code[2..3], code[3..]);
    assert code[3..] == code[3..4] + code[4..];
    assert w == u3[..7] + [code[3..4], code[4..]] + u3[8..];
    ConcatSplit(u3, 7, code[3..4], code[4..]);
  }

  lemma MarkdownlintRuleMatch(a: string, b: string, code: string, c: string)
    requires AllSpace(a) && AllSpace(b) && AllSpace(c) && |b| > 0 && IsMarkdownlintCode(code)
    ensures var line := MarkdownlintRuleText(a, b, code, c);
      exists ps :: Trace(MarkdownlintSpecific, line, 0, ps) && GroupIs(line, ps, 5, 9, code)
  {
    var w := MarkdownlintRuleFinePieces(a, b, code, c);
    MarkdownlintRuleFine(a, b, code, c);
    var p := MarkdownlintSpecific;
    forall k | 0 <= k < |p| ensures Covers(p[k], w[k]) {
      assert k in {0, 1, 2, 3, 4, 5, 6, 7, 8, 9, 10};
    }
    TraceOfPieces(p, "", w, "");
    var s, ps := "" + Concat(w) + "", Offsets(0, w);
    assert Between(s, ps[5], ps[6], w[5]) && Between(s, ps[6], ps[7], w[6]);
    assert Between(s, ps[7], ps[8], w[7]) && Between(s, ps[8], ps[9], w[8]);
    assert s[ps[5]..ps[9]] == s[ps[5]..ps[6]] + s[ps[6]..ps[7]] + s[ps[7]..ps[8]] + s[ps[8]..ps[9]];
    assert code == "MD" + code[2..3] + code[3..4] + code[4..];
    assert GroupIs(s, ps, 5, 9, code);
    assert s == MarkdownlintRuleText(a, b, code, c);
  }

  lemma MarkdownlintRuleOpener(a: string, b: string, code: string, c: string)
    requires AllSpace(a) && AllSpace(b) && AllSpace(c) && IsMarkdownlintCode(code)
    ensures var line := MarkdownlintRuleText(a, b, code, c);
      SingleOpener(line) && Strip(line) == line
  {
    var w := MarkdownlintRulePieces(a, b, code, c);
    assert code == [code[0], code[1], code[2], code[3], code[4]];
    assert SingleOpener(Concat(w)) && Strip(Concat(w)) == Concat(w) by {
      SpacesLack(a, '<'); SpacesLack(b, '<'); SpacesLack(c, '<');
      forall k | 1 <= k < |w| ensures '<' !in w[k] {
        assert k in {1, 2, 3, 4, 5, 6};
      }
      CommentShape(w);
    }
  }

  lemma MarkdownlintRuleLacks(a: string, b: string, code: string, c: string)
    requires AllSpace(a) && AllSpace(b) && AllSpace(c) && IsMarkdownlintCode(code)
    ensures 'v' !in MarkdownlintRuleText(a, b, code, c)
  {
    var w := MarkdownlintRulePieces(a, b, code, c);
    assert code == [code[0], code[1], code[2], code[3], code[4]];
    assert 'v' !in Concat(w) by {
      SpacesLack(a, 'v'); SpacesLack(b, 'v'); SpacesLack(c, 'v');
      forall k | 0 <= k < |w| ensures 'v' !in w[k] {
        assert k in {0, 1, 2, 3, 4, 5, 6};
      }
      ConcatLacks(w, 'v');
    }
  }

  /** The markdownlint checks on a specific markdownlint comment: its code, and
      no global disable. */
  lemma MarkdownlintRuleFound(a: string, b: string, code: string, c: string)
    requires AllSpace(a) && AllSpace(b) && AllSpace(c) && |b| > 0 && IsMarkdownlintCode(code)
    ensures var line := MarkdownlintRuleText(a, b, code, c);
      MarkdownlintRule(line) == Some(code) && !MarkdownlintOff(line)
  {
    var line := MarkdownlintRuleText(a, b, code, c);
    var ps: seq<int> :| Trace(MarkdownlintSpecific, line, 0, ps) && GroupIs(line, ps, 5, 9, code) by {
      MarkdownlintRuleMatch(a, b, code, c);
    }
    MarkdownlintRuleOpener(a, b, code, c);
    SingleMarkdownlintRule(line, ps, code);
  }

  /** A line with one opener and a specific markdownlint match at its start names
      that code and has no global markdownlint tag. */
  lemma SingleMarkdownlintRule(line: string, ps: seq<int>, code: string)
    requires Trace(MarkdownlintSpecific, line, 0, ps) && GroupIs(line, ps, 5, 9, code) && SingleOpener(line)
    ensures MarkdownlintRule(line) == Some(code) && !MarkdownlintOff(line)
  {
    MarkdownlintRuleIs(line, ps, code);
    RuleMarkdownlintExcludesGlobal(line, 0, ps);
  }


  /** A specific markdownlint comment, with any whitespace the pattern allows, is
      one markdownlint finding naming exactly its code and carrying the whole line. */
  lemma MarkdownlintRuleLine(a: string, b: string, code: string, c: string, n: nat)
    requires AllSpace(a) && AllSpace(b) && AllSpace(c) && |b| > 0 && IsMarkdownlintCode(code)
    ensures var line := MarkdownlintRuleText(a, b, code, c);
      ScanLine(line, n) == Exceptions([], [Finding(n, code, line)])
  {
    var line := MarkdownlintRuleText(a, b, code, c);
    MarkdownlintRuleFound(a, b, code, c);
    assert ValeRule(line) == None && !ValeOff(line) by {
      MarkdownlintRuleLacks(a, b, code, c);
      NoValeWithoutV(line);
    }
    MarkdownlintRuleOpener(a, b, code, c);
    ScanLineOf(line, n, None, false, Some(code), false);
    ListedCases(None, false, ValeGlobalLabel, n, line);
    ListedCases(Some(code), false, MarkdownlintGlobalLabel, n, line);
  }



  // ---------------------------------------------------------------------------
  // `<!-- markdownlint-disable -->`

  function MarkdownlintDisablePieces(a: string, c: string): seq<string> {
    ["<!--", a, "markdownlint-disable", c, "-->"]
  }

  /** `<!-- markdownlint-disable -->` with whitespace runs `a` and `c`. */
  function MarkdownlintDisableText(a: string, c: string): string {
    Concat(MarkdownlintDisablePieces(a, c))
  }

  lemma MarkdownlintDisableMatch(a: string, c: string)
    requires AllSpace(a) && AllSpace(c)
    ensures exists qs :: Trace(MarkdownlintGlobal, MarkdownlintDisableText(a, c), 0, qs)
  {
    var w := MarkdownlintDisablePieces(a, c);
    var p := MarkdownlintGlobal;
    forall k | 0 <= k < |p| ensures Covers(p[k], w[k]) {
      assert k in {0, 1, 2, 3, 4};
    }
    TraceOfPieces(p, "", w, "");
    assert "" + Concat(w) + "" == MarkdownlintDisableText(a, c);
  }

  lemma MarkdownlintDisableOpener(a: string, c: string)
    requires AllSpace(a) && AllSpace(c)
    ensures var line := MarkdownlintDisableText(a, c);
      SingleOpener(line) && Strip(line) == line
  {
    var w := MarkdownlintDisablePieces(a, c);
    assert SingleOpener(Concat(w)) && Strip(Concat(w)) == Concat(w) by {
      SpacesLack(a, '<'); SpacesLack(c, '<');
      forall k | 1 <= k < |w| ensures '<' !in w[k] {
        assert k in {1, 2, 3, 4};
      }
      CommentShape(w);
    }
  }

  lemma MarkdownlintDisableLacks(a: string, c: string)
    requires AllSpace(a) && AllSpace(c)
    ensures 'v' !in MarkdownlintDisableText(a, c)
  {
    var w := MarkdownlintDisablePieces(a, c);
    assert 'v' !in Concat(w) by {
      SpacesLack(a, 'v'); SpacesLack(c, 'v');
      forall k | 0 <= k < |w| ensures 'v' !in w[k] {
        assert k in {0, 1, 2, 3, 4};
      }
      ConcatLacks(w, 'v');
    }
  }

  /** A global markdownlint comment, with any whitespace the pattern allows, is one
      global markdownlint finding carrying the whole line, and nothing else. */
  lemma MarkdownlintDisableLine(a: string, c: string, n: nat)
    requires AllSpace(a) && AllSpace(c)
    ensures var line := MarkdownlintDisableText(a, c);
      ScanLine(line, n) == Exceptions([], [Finding(n, MarkdownlintGlobalLabel, line)])
  {
    var line := MarkdownlintDisableText(a, c);
    assert MarkdownlintOff(line) && MarkdownlintRule(line) == None by {
      MarkdownlintDisableMatch(a, c);
      var qs :| Trace(MarkdownlintGlobal, line, 0, qs);
      MarkdownlintDisableOpener(a, c);
      GlobalMarkdownlintExcludesRule(line, 0, qs);
    }
    assert ValeRule(line) == None && !ValeOff(line) by {
      MarkdownlintDisableLacks(a, c);
      NoValeWithoutV(line);
    }
    MarkdownlintDisableOpener(a, c);
    ScanLineOf(line, n, None, false, None, true);
    ListedCases(None, false, ValeGlobalLabel, n, line);
    ListedCases(None, true, MarkdownlintGlobalLabel, n, line);
  }


  // ---------------------------------------------------------------------------
  // Both Vale tags on one line

  /** A global Vale comment followed by a specific one, every gap the whitespace `sp`. */
  function TwoValeTagsText(sp: string, rule: string): string {
    ValeOffText(sp, sp, sp) + sp + ValeRuleText(sp, sp, rule, sp, sp, sp)
  }

  /** A global Vale comment at the start of a line is matched there. */
  lemma ValeOffLeads(a: string, b: string, c: string, post: string)
    requires AllSpace(a) && AllSpace(b) && AllSpace(c) && |b| > 0
    ensures exists qs :: Trace(ValeGlobal, ValeOffText(a, b, c) + post, 0, qs)
  {
    ValeOffMatch(a, b, c, [], post);
    assert [] + ValeOffText(a, b, c) + post == ValeOffText(a, b, c) + post;
  }

  /** A global Vale comment followed by whitespace has `<` only at its start. */
  lemma ValeOffSpaceOpener(sp: string)
    requires AllSpace(sp) && |sp| > 0
    ensures SingleOpener(ValeOffText(sp, sp, sp) + sp)
  {
    ValeOffOpener(sp, sp, sp);
    SpacesLack(sp, '<');
    SingleOpenerAppend(ValeOffText(sp, sp, sp), sp);
  }

  /** The two-tag line holds a global Vale tag. */
  lemma TwoValeTagsOff(sp: string, rule: string)
    requires AllSpace(sp) && |sp| > 0 && IsValeRuleName(rule)
    ensures ValeOff(TwoValeTagsText(sp, rule))
  {
    var off, tag := ValeOffText(sp, sp, sp), ValeRuleText(sp, sp, rule, sp, sp, sp);
    ValeOffLeads(sp, sp, sp, sp + tag);
    assert off + (sp + tag) == TwoValeTagsText(sp, rule);
  }

  /** When a global Vale match starts the line and `pre` has no `<` but its
      first character, no specific Vale match starts within `pre`. */
  lemma NoRuleWithinOffComment(pre: string, post: string, qs: seq<int>)
    requires SingleOpener(pre) && Trace(ValeGlobal, pre + post, 0, qs)
    ensures forall j, rs :: 0 <= j < |pre| ==> !Trace(ValeSpecific, pre + post, j, rs)
  {
    var line := pre + post;
    forall j, rs | 0 <= j < |pre| && Trace(ValeSpecific, line, j, rs) ensures false {
      StartsAtOpener(ValeSpecific, line, j, rs);
      assert pre[j] == line[j];
      ValeTagsExclusive(line, 0);
    }
  }

  /** No specific Vale match starts within the leading global comment. */
  lemma TwoValeTagsNoEarlierRule(sp: string, rule: string)
    requires AllSpace(sp) && |sp| > 0 && IsValeRuleName(rule)
    ensures forall j, rs :: 0 <= j < |ValeOffText(sp, sp, sp) + sp| ==>
      !Trace(ValeSpecific, TwoValeTagsText(sp, rule), j, rs)
  {
    var off, tag := ValeOffText(sp, sp, sp), ValeRuleText(sp, sp, rule, sp, sp, sp);
    var pre := off + sp;
    ValeOffSpaceOpener(sp);
    ValeOffLeads(sp, sp, sp, sp + tag);
    assert off + (sp + tag) == pre + tag;
    var qs :| Trace(ValeGlobal, pre + tag, 0, qs);
    NoRuleWithinOffComment(pre, tag, qs);
    assert TwoValeTagsText(sp, rule) == pre + tag;
  }

  /** A specific Vale comment after text in which no specific match starts is
      the line's specific Vale match. */
  lemma ValeRuleAfter(pre: string, a: string, b: string, rule: string, c: string, d: string, e: string)
    requires ValeRuleGaps(a, b, c, d, e) && IsValeRuleName(rule)
    requires forall j, rs :: 0 <= j < |pre| ==> !Trace(ValeSpecific, pre + ValeRuleText(a, b, rule, c, d, e), j, rs)
    ensures ValeRule(pre + ValeRuleText(a, b, rule, c, d, e)) == Some(rule)
  {
    var line := pre + ValeRuleText(a, b, rule, c, d, e);
    var ps: seq<int> :| Trace(ValeSpecific, line, |pre|, ps) && GroupIs(line, ps, 5, 7, rule) by {
      ValeRuleMatch(a, b, rule, c, d, e, pre, "");
      assert pre + ValeRuleText(a, b, rule, c, d, e) + "" == line;
    }
    assert |ps| > 0 && ps[0] == |pre| by {
      assert Trace(ValeSpecific, line, |pre|, ps);
    }
    ValeRuleIs(line, ps, rule);
  }

  /** The specific Vale match of the two-tag line is the second comment: the
      global comment at the start of the line is not a specific tag. */
  lemma TwoValeTagsRule(sp: string, rule: string)
    requires AllSpace(sp) && |sp| > 0 && IsValeRuleName(rule)
    ensures ValeRule(TwoValeTagsText(sp, rule)) == Some(rule)
  {
    var off := ValeOffText(sp, sp, sp);
    assert TwoValeTagsText(sp, rule) == (off + sp) + ValeRuleText(sp, sp, rule, sp, sp, sp);
    TwoValeTagsNoEarlierRule(sp, rule);
    ValeRuleAfter(off + sp, sp, sp, rule, sp, sp, sp);
  }

  /** The two-tag line has no `m` and no outer whitespace. */
  lemma TwoValeTagsShape(sp: string, rule: string)
    requires AllSpace(sp) && |sp| > 0 && IsValeRuleName(rule) && 'm' !in rule
    ensures var line := TwoValeTagsText(sp, rule); 'm' !in line && Strip(line) == line
  {
    var off, tag := ValeOffText(sp, sp, sp), ValeRuleText(sp, sp, rule, sp, sp, sp);
    var line := TwoValeTagsText(sp, rule);
    ValeOffLacks(sp, sp, sp);
    SpacesLack(sp, 'm');
    var w := ValeRulePieces(sp, sp, rule, sp, sp, sp);
    assert 'm' !in tag by {
      forall k | 0 <= k < |w| ensures 'm' !in w[k] {
        assert k in {0, 1, 2, 3, 4, 5, 6, 7, 8, 9, 10};
      }
      ConcatLacks(w, 'm');
    }
    ConcatLast(w);
    assert off == "<!--" + Concat(ValeOffPieces(sp, sp, sp)[1..]);
    assert line[0] == '<' && line[|line| - 1] == tag[|tag| - 1] == '>';
    StripUnchanged(line);
  }

  /** One line may carry both Vale tags; it then yields the specific finding
      first and the global one second, although the comments stand the other
      way round on the line. */
  lemma TwoValeTagsLine(sp: string, rule: string, n: nat)
    requires AllSpace(sp) && |sp| > 0 && IsValeRuleName(rule) && 'm' !in rule
    ensures var line := TwoValeTagsText(sp, rule);
      ScanLine(line, n) == Exceptions([Finding(n, rule, line), Finding(n, ValeGlobalLabel, line)], [])
  {
    var line := TwoValeTagsText(sp, rule);
    TwoValeTagsRule(sp, rule);
    TwoValeTagsOff(sp, rule);
    assert MarkdownlintRule(line) == None && !MarkdownlintOff(line) && Strip(line) == line by {
      TwoValeTagsShape(sp, rule);
      NoMarkdownlintWithoutM(line);
    }
    ScanLineOf(line, n, Some(rule), true, None, false);
    ListedCases(Some(rule), true, ValeGlobalLabel, n, line);
    ListedCases(None, false, MarkdownlintGlobalLabel, n, line);
  }



}
