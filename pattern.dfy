/**
 * The fragment of Python regular expressions that the scanner's tag patterns use:
 * literal text, one character of a class, and a greedy `*` over a class
 * (`\s+` is one `\s` followed by `\s*`, `\d{3}` is three `\d`).
 *
 * A match of a pattern is described declaratively by a trace: the positions
 * between consecutive atoms. `Run` is the greedy matcher; when every starred
 * class is followed by something that cannot begin with a character of that
 * class (`WellFormed`), the greedy run is the one and only trace, so it is also
 * the match that a backtracking engine reports and its groups are determined.
 */
module Pattern {
  import opened Optional
  import opened Text

  datatype CharClass = Space | Digit | RuleChar

  datatype Atom = Lit(text: string) | One(cls: CharClass) | Star(cls: CharClass)

  predicate In(c: CharClass, ch: char) {
    match c
    case Space => IsSpace(ch)
    case Digit => IsDigit(ch)
    case RuleChar => IsRuleChar(ch)
  }

  /** A sufficient test that two classes share no character. */
  predicate Disjoint(c: CharClass, d: CharClass) {
    (c == Space) != (d == Space)
  }

  lemma DisjointClasses(c: CharClass, d: CharClass, ch: char)
    requires Disjoint(c, d)
    ensures !(In(c, ch) && In(d, ch))
  {
  }

  // ---------------------------------------------------------------------------
  // Declarative semantics

  /** Atom `a` matches exactly `s[x..y]`. */
  predicate Accepts(a: Atom, s: string, x: int, y: int) {
    0 <= x <= y <= |s| &&
    match a
    case Lit(t) => y == x + |t| && s[x..y] == t
    case One(c) => y == x + 1 && In(c, s[x])
    case Star(c) => forall m :: x <= m < y ==> In(c, s[m])
  }

  /** `ps` is a match of `p` in `s` starting at `i`: atom `k` covers `s[ps[k]..ps[k+1]]`. */
  predicate Trace(p: seq<Atom>, s: string, i: int, ps: seq<int>) {
    0 <= i <= |s| && |ps| == |p| + 1 && ps[0] == i &&
    forall k :: 0 <= k < |p| ==> Accepts(p[k], s, ps[k], ps[k + 1])
  }

  lemma TraceTail(p: seq<Atom>, s: string, i: int, ps: seq<int>)
    requires |p| > 0 && Trace(p, s, i, ps)
    ensures Accepts(p[0], s, i, ps[1]) && Trace(p[1..], s, ps[1], ps[1..])
  {
    assert Accepts(p[0], s, ps[0], ps[1]);
    forall k | 0 <= k < |p[1..]| ensures Accepts(p[1..][k], s, ps[1..][k], ps[1..][k + 1]) {
      assert Accepts(p[k + 1], s, ps[k + 1], ps[k + 2]);
    }
  }

  lemma TraceCons(p: seq<Atom>, s: string, i: int, ps: seq<int>)
    requires |p| > 0 && |ps| > 0
    requires Accepts(p[0], s, i, ps[0]) && Trace(p[1..], s, ps[0], ps)
    ensures Trace(p, s, i, [i] + ps)
  {
    var qs := [i] + ps;
    forall k | 0 <= k < |p| ensures Accepts(p[k], s, qs[k], qs[k + 1]) {
      if k > 0 {
        assert Accepts(p[1..][k - 1], s, ps[k - 1], ps[k]);
      }
    }
  }

  /** Positions in a trace never decrease, so every slice between them is defined. */
  lemma {:induction false} TraceMonotone(p: seq<Atom>, s: string, i: int, ps: seq<int>, a: int, b: int)
    requires Trace(p, s, i, ps) && 0 <= a <= b < |ps|
    ensures 0 <= ps[a] <= ps[b] <= |s|
    decreases b - a
  {
    if a < b {
      assert Accepts(p[a], s, ps[a], ps[a + 1]);
      TraceMonotone(p, s, i, ps, a + 1, b);
    } else if a > 0 {
      assert Accepts(p[a - 1], s, ps[a - 1], ps[a]);
    }
  }

  /** In a match, a literal atom covers its text. */
  lemma LitAt(p: seq<Atom>, s: string, i: int, ps: seq<int>, k: nat)
    requires Trace(p, s, i, ps) && k < |p| && p[k].Lit? && |p[k].text| > 0
    ensures 0 <= ps[k] < |s| && s[ps[k]] == p[k].text[0] && ps[k + 1] == ps[k] + |p[k].text|
    ensures s[ps[k]..ps[k + 1]] == p[k].text
  {
    assert Accepts(p[k], s, ps[k], ps[k + 1]);
    assert s[ps[k]] == s[ps[k]..ps[k + 1]][0];
  }

  /** In a match, a single-character atom covers one character of its class. */
  lemma OneAt(p: seq<Atom>, s: string, i: int, ps: seq<int>, k: nat)
    requires Trace(p, s, i, ps) && k < |p| && p[k].One?
    ensures 0 <= ps[k] < |s| && In(p[k].cls, s[ps[k]]) && ps[k + 1] == ps[k] + 1
  {
    assert Accepts(p[k], s, ps[k], ps[k + 1]);
  }

  // ---------------------------------------------------------------------------
  // Greedy matching

  /** The end of the longest run of class `c` starting at `i`. */
  function SkipWhile(c: CharClass, s: string, i: int): (r: int)
    requires 0 <= i <= |s|
    ensures i <= r <= |s|
    ensures forall m :: i <= m < r ==> In(c, s[m])
    ensures r == |s| || !In(c, s[r])
    decreases |s| - i
  {
    if i < |s| && In(c, s[i]) then SkipWhile(c, s, i + 1) else i
  }

  /** Where a greedy match of one atom starting at `i` ends, if it matches. */
  function Step(a: Atom, s: string, i: int): (r: Option<int>)
    requires 0 <= i <= |s|
    ensures r.Some? ==> Accepts(a, s, i, r.value)
  {
    match a
    case Lit(t) => if i + |t| <= |s| && s[i..i + |t|] == t then Some(i + |t|) else None
    case One(c) => if i < |s| && In(c, s[i]) then Some(i + 1) else None
    case Star(c) => Some(SkipWhile(c, s, i))
  }

  /** The greedy matcher: each atom takes as much as it can, with no backtracking. */
  function Run(p: seq<Atom>, s: string, i: int): (r: Option<seq<int>>)
    requires 0 <= i <= |s|
    ensures r.Some? ==> Trace(p, s, i, r.value)
    decreases |p|
  {
    if p == [] then Some([i])
    else
      match Step(p[0], s, i)
      case None => None
      case Some(j) =>
        match Run(p[1..], s, j)
        case None => None
        case Some(ps) => TraceCons(p, s, i, ps); Some([i] + ps)
  }

  // ---------------------------------------------------------------------------
  // When greedy is exact

  /** Every match of `p` begins with a character outside class `c`. */
  predicate StartsOutside(c: CharClass, p: seq<Atom>)
    decreases |p|
  {
    |p| > 0 &&
    match p[0]
    case Lit(t) => |t| > 0 && !In(c, t[0])
    case One(d) => Disjoint(c, d)
    case Star(d) => Disjoint(c, d) && StartsOutside(c, p[1..])
  }

  /** Every starred class is followed by something that cannot extend it. */
  predicate WellFormed(p: seq<Atom>)
    decreases |p|
  {
    p == [] ||
    ((p[0].Star? ==> StartsOutside(p[0].cls, p[1..])) && WellFormed(p[1..]))
  }

  /** `StartsOutside(c, p[k..])`, stated by index so that it can be checked atom by atom. */
  predicate StartsOutsideAt(c: CharClass, p: seq<Atom>, k: nat)
    decreases |p| - k
  {
    k < |p| &&
    match p[k]
    case Lit(t) => |t| > 0 && !In(c, t[0])
    case One(d) => Disjoint(c, d)
    case Star(d) => Disjoint(c, d) && StartsOutsideAt(c, p, k + 1)
  }

  lemma {:induction false} StartsOutsideSuffix(c: CharClass, p: seq<Atom>, k: nat)
    requires StartsOutsideAt(c, p, k)
    ensures StartsOutside(c, p[k..])
    decreases |p| - k
  {
    if p[k].Star? {
      StartsOutsideSuffix(c, p, k + 1);
      assert p[k..][1..] == p[k + 1..];
    }
  }

  /** `WellFormed` from a check of each starred atom. */
  lemma {:induction false} WellFormedByIndex(p: seq<Atom>)
    requires forall k :: 0 <= k < |p| && p[k].Star? ==> StartsOutsideAt(p[k].cls, p, k + 1)
    ensures WellFormed(p)
    decreases |p|
  {
    if p != [] {
      if p[0].Star? {
        StartsOutsideSuffix(p[0].cls, p, 1);
      }
      forall k | 0 <= k < |p[1..]| && p[1..][k].Star?
        ensures StartsOutsideAt(p[1..][k].cls, p[1..], k + 1)
      {
        StartsOutsideShift(p[k + 1].cls, p, k + 2);
      }
      WellFormedByIndex(p[1..]);
    }
  }

  lemma {:induction false} StartsOutsideShift(c: CharClass, p: seq<Atom>, k: nat)
    requires 1 <= k && StartsOutsideAt(c, p, k)
    ensures StartsOutsideAt(c, p[1..], k - 1)
    decreases |p| - k
  {
    if p[k].Star? {
      StartsOutsideShift(c, p, k + 1);
    }
  }

  lemma {:induction false} FirstOutside(c: CharClass, p: seq<Atom>, s: string, x: int, ps: seq<int>)
    requires StartsOutside(c, p) && Trace(p, s, x, ps)
    ensures 0 <= x < |s| && !In(c, s[x])
    decreases |p|
  {
    TraceTail(p, s, x, ps);
    match p[0]
    case Lit(t) =>
      assert s[x..ps[1]][0] == t[0];
    case One(d) =>
      DisjointClasses(c, d, s[x]);
    case Star(d) =>
      if ps[1] > x {
        DisjointClasses(c, d, s[x]);
      } else {
        FirstOutside(c, p[1..], s, ps[1], ps[1..]);
      }
  }

  /** The maximal run is the only run of class `c` from `x` that cannot be extended. */
  lemma SkipWhileUnique(c: CharClass, s: string, x: int, r: int)
    requires 0 <= x <= r <= |s|
    requires forall m :: x <= m < r ==> In(c, s[m])
    requires r == |s| || !In(c, s[r])
    ensures SkipWhile(c, s, x) == r
  {
  }

  /** In a match of a well-formed pattern every starred atom takes its longest run. */
  lemma {:induction false} StarIsMaximal(p: seq<Atom>, s: string, i: int, ps: seq<int>, k: nat)
    requires WellFormed(p) && Trace(p, s, i, ps) && k < |p| && p[k].Star?
    ensures 0 <= ps[k] <= |s| && ps[k + 1] == SkipWhile(p[k].cls, s, ps[k])
    decreases k
  {
    TraceTail(p, s, i, ps);
    if k == 0 {
      FirstOutside(p[0].cls, p[1..], s, ps[1], ps[1..]);
      SkipWhileUnique(p[0].cls, s, i, ps[1]);
    } else {
      StarIsMaximal(p[1..], s, ps[1], ps[1..], k - 1);
    }
  }

  /** Completeness: for a well-formed pattern, every trace is the greedy one. */
  lemma {:induction false} RunComplete(p: seq<Atom>, s: string, i: int, ps: seq<int>)
    requires WellFormed(p) && Trace(p, s, i, ps)
    ensures 0 <= i <= |s| && Run(p, s, i) == Some(ps)
    decreases |p|
  {
    TraceMonotone(p, s, i, ps, 0, |p|);
    if p != [] {
      TraceTail(p, s, i, ps);
      var j := ps[1];
      if p[0].Star? {
        StarIsMaximal(p, s, i, ps, 0);
      }
      RunComplete(p[1..], s, j, ps[1..]);
      assert ps == [i] + ps[1..];
    } else {
      assert ps == [i];
    }
  }

  /** A well-formed pattern has at most one match at each position. */
  lemma TraceUnique(p: seq<Atom>, s: string, i: int, ps: seq<int>, qs: seq<int>)
    requires WellFormed(p) && Trace(p, s, i, ps) && Trace(p, s, i, qs)
    ensures ps == qs
  {
    RunComplete(p, s, i, ps);
    RunComplete(p, s, i, qs);
  }

  // ---------------------------------------------------------------------------
  // re.search

  /** The leftmost match at or after position `i`. */
  function SearchFrom(p: seq<Atom>, s: string, i: int): (r: Option<seq<int>>)
    requires WellFormed(p) && 0 <= i
    ensures r.Some? ==> |r.value| == |p| + 1
    ensures r.Some? ==> i <= r.value[0] && Trace(p, s, r.value[0], r.value)
    ensures r.Some? ==> forall j, qs :: i <= j < r.value[0] ==> !Trace(p, s, j, qs)
    ensures r.None? ==> forall j, qs :: i <= j ==> !Trace(p, s, j, qs)
    decreases |s| + 1 - i
  {
    if i > |s| then None
    else
      match Run(p, s, i)
      case Some(ps) => Some(ps)
      case None =>
        assert forall qs :: !Trace(p, s, i, qs) by {
          forall qs | Trace(p, s, i, qs) ensures false {
            RunComplete(p, s, i, qs);
          }
        }
        SearchFrom(p, s, i + 1)
  }

  /** A match with none to its left is what the search returns. */
  lemma SearchFinds(p: seq<Atom>, s: string, ps: seq<int>)
    requires WellFormed(p) && |ps| > 0 && Trace(p, s, ps[0], ps)
    requires forall j, qs :: 0 <= j < ps[0] ==> !Trace(p, s, j, qs)
    ensures Search(p, s) == Some(ps)
  {
  }

  /** `re.search(p, s)`: the leftmost position where `p` matches, with the match's trace. */
  function Search(p: seq<Atom>, s: string): (r: Option<seq<int>>)
    requires WellFormed(p)
    ensures r.Some? ==> |r.value| == |p| + 1
    ensures r.Some? ==> Trace(p, s, r.value[0], r.value)
    ensures r.Some? ==> forall j, qs :: 0 <= j < r.value[0] ==> !Trace(p, s, j, qs)
    ensures r.Some? ==> forall qs :: Trace(p, s, r.value[0], qs) ==> qs == r.value
    ensures r.None? <==> forall j, qs :: !Trace(p, s, j, qs)
  {
    var r := SearchFrom(p, s, 0);
    if r.Some? then
      assert forall qs :: Trace(p, s, r.value[0], qs) ==> qs == r.value by {
        forall qs | Trace(p, s, r.value[0], qs) ensures qs == r.value {
          TraceUnique(p, s, r.value[0], qs, r.value);
        }
      }
      r
    else
      r
  }
}
