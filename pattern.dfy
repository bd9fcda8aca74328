/**
 * Fixed-length search patterns and the replace-all / replace-first
 * operations built on them.
 *
 * A pattern is a sequence of atoms: a literal character, or the JavaScript
 * regular-expression `.` (without the `s` and `u` flags), which matches any
 * single UTF-16 code unit except a line terminator. A pattern made only of
 * literals is a plain substring search, as in Rust `str::replace` and
 * JavaScript `String.prototype.replace` with a string argument.
 */
module Pattern {
  import opened Wrappers
  import opened Strings
  import opened Scanner

  datatype Atom = Lit(c: char) | AnyChar

  type Pattern = seq<Atom>

  /** LineTerminator of ECMA-262: the characters `.` does not match. */
  predicate IsLineTerminator(c: char) {
    c == '\n' || c == '\r' || c == '\U{2028}' || c == '\U{2029}'
  }

  /**
   * A character that JavaScript stores as one UTF-16 code unit. A `.` in a
   * regular expression without the `u` flag matches a single code unit, so
   * it takes only the high surrogate of any other character; the atom after
   * it, in every pattern built here a literal ASCII character, then fails on
   * the low surrogate.
   */
  predicate IsSingleUnit(c: char) {
    c < '\U{10000}'
  }

  predicate AtomMatches(a: Atom, c: char) {
    match a
    case Lit(d) => c == d
    case AnyChar => !IsLineTerminator(c) && IsSingleUnit(c)
  }

  /** The pattern matches at the head of `t`. */
  predicate MatchesAt(t: string, p: Pattern) {
    |p| <= |t| && forall i :: 0 <= i < |p| ==> AtomMatches(p[i], t[i])
  }

  /** The pattern that matches exactly the text `s`. */
  function Literal(s: string): (p: Pattern)
    ensures |p| == |s|
  {
    seq(|s|, i requires 0 <= i < |s| => Lit(s[i]))
  }

  lemma LiteralMatches(t: string, s: string)
    ensures MatchesAt(t, Literal(s)) <==> StartsWith(t, s)
  {
    if StartsWith(t, s) {
      forall i | 0 <= i < |s|
        ensures AtomMatches(Literal(s)[i], t[i])
      {
        assert t[..|s|][i] == t[i];
      }
    }
    if MatchesAt(t, Literal(s)) {
      assert forall i :: 0 <= i < |s| ==> AtomMatches(Literal(s)[i], t[i]);
      assert t[..|s|] == s;
    }
  }

  /** Replaces a match of `p` at the head of the text by `r`. */
  function ReplaceMatcher(p: Pattern, r: string): Matcher {
    t => if 0 < |p| && MatchesAt(t, p) then Some(Hit(|p|, r)) else None
  }

  lemma ReplaceMatcherSound(p: Pattern, r: string)
    ensures Sound(ReplaceMatcher(p, r))
  {
  }

  /**
   * Every match of `p`, found left to right and not overlapping, replaced
   * by `r` (a regular expression with the `g` flag; for a literal pattern,
   * Rust `str::replace`).
   */
  function ReplaceAll(s: string, p: Pattern, r: string): string
    requires |p| > 0
  {
    ReplaceMatcherSound(p, r);
    Scan(s, ReplaceMatcher(p, r))
  }

  /** `ReplaceAll` for a literal text `p`. */
  function ReplaceText(s: string, p: string, r: string): string
    requires |p| > 0
  {
    ReplaceAll(s, Literal(p), r)
  }

  /** Index of the first occurrence of `p` in `s` at or after `from`. */
  function IndexOf(s: string, p: string, from: nat): (r: Option<nat>)
    requires from <= |s|
    ensures r.Some? ==> from <= r.value && OccursAt(s, p, r.value)
    ensures forall j :: from <= j && (r.None? || j < r.value) ==> !OccursAt(s, p, j)
    decreases |s| - from
  {
    if OccursAt(s, p, from) then Some(from)
    else if from == |s| then None
    else IndexOf(s, p, from + 1)
  }

  /**
   * JavaScript `s.replace(p, r)` with a string `p`: only the first
   * occurrence is replaced.
   */
  function ReplaceFirst(s: string, p: string, r: string): (out: string)
    ensures !Contains(s, p) ==> out == s
    ensures forall i :: OccursAt(s, p, i) && (forall j :: 0 <= j < i ==> !OccursAt(s, p, j))
                  ==> out == s[..i] + r + s[i + |p|..]
  {
    match IndexOf(s, p, 0)
    case None => s
    case Some(i) => s[..i] + r + s[i + |p|..]
  }

  /** `s` already begins with `x`, so a further `x` later on is not a match. */
  lemma StartsWithExtend(x: string, b: string, p: string)
    requires b == [] || b[0] !in p
    ensures StartsWith(x + b, p) == StartsWith(x, p)
  {
    if |p| <= |x| {
      assert (x + b)[..|p|] == x[..|p|];
    } else if |p| <= |x + b| {
      assert (x + b)[..|p|][|x|] == b[0];
    }
  }

  /**
   * A literal search never straddles into a text that starts with a
   * character foreign to the pattern.
   */
  lemma TextLocal(a: string, b: string, p: string, r: string)
    requires |p| > 0 && (b == [] || b[0] !in p)
    ensures LocalTo(ReplaceMatcher(Literal(p), r), a, b)
  {
    forall i | 0 <= i < |a|
      ensures ReplaceMatcher(Literal(p), r)((a + b)[i..]) == ReplaceMatcher(Literal(p), r)(a[i..])
      ensures ReplaceMatcher(Literal(p), r)(a[i..]).Some? ==> i + |p| <= |a|
    {
      assert (a + b)[i..] == a[i..] + b;
      StartsWithExtend(a[i..], b, p);
      LiteralMatches(a[i..] + b, p);
      LiteralMatches(a[i..], p);
    }
  }

  /** A text without the first character of `p` passes a literal search untouched. */
  lemma TextSkip(t: string, c: string, p: string, r: string)
    requires |p| > 0 && p[0] !in t
    ensures ReplaceText(t + c, p, r) == t + ReplaceText(c, p, r)
  {
    ReplaceMatcherSound(Literal(p), r);
    forall i | 0 <= i < |t|
      ensures ReplaceMatcher(Literal(p), r)((t + c)[i..]).None?
    {
      LiteralMatches((t + c)[i..], p);
      assert (t + c)[i..][0] == t[i];
    }
    ScanSkip(t, c, ReplaceMatcher(Literal(p), r));
  }

  /** Without an occurrence of `p`, a literal replace-all returns its input. */
  lemma TextUnchanged(s: string, p: string, r: string)
    requires |p| > 0 && !Contains(s, p)
    ensures ReplaceText(s, p, r) == s
  {
    ReplaceMatcherSound(Literal(p), r);
    forall i | 0 <= i < |s|
      ensures ReplaceMatcher(Literal(p), r)(s[i..]).None?
    {
      LiteralMatches(s[i..], p);
      if StartsWith(s[i..], p) {
        assert s[i..][..|p|] == s[i..i + |p|];
        assert OccursAt(s, p, i);
      }
    }
    ScanNoHits(s, ReplaceMatcher(Literal(p), r));
  }

  /** A literal replace-all leaves no occurrence of `p` when `r` cannot form one. */
  lemma TextRemoved(s: string, p: string, r: string)
    requires |p| > 0 && Avoids(r, p)
    ensures !Contains(ReplaceText(s, p, r), p)
  {
    var m := ReplaceMatcher(Literal(p), r);
    ReplaceMatcherSound(Literal(p), r);
    forall i | 0 <= i <= |s| - |p| && OccursAt(s, p, i)
      ensures m(s[i..]).Some?
    {
      assert s[i..][..|p|] == s[i..i + |p|];
      LiteralMatches(s[i..], p);
    }
    ScanAvoid(s, m, p);
  }

  /** A literal replace-all creates no occurrence of `q` when `r` cannot form one. */
  lemma TextKeepsAbsent(s: string, p: string, r: string, q: string)
    requires |p| > 0 && |q| > 0 && Avoids(r, q) && !Contains(s, q)
    ensures !Contains(ReplaceText(s, p, r), q)
  {
    ReplaceMatcherSound(Literal(p), r);
    ScanAvoid(s, ReplaceMatcher(Literal(p), r), q);
  }

  /**
   * `new RegExp(s)` for a source `s` whose only metacharacter is `.`: every
   * other character stands for itself.
   */
  function Regex(s: string): Pattern {
    seq(|s|, i requires 0 <= i < |s| => if s[i] == '.' then AnyChar else Lit(s[i]))
  }

  /** A regular expression matches its own source text. */
  lemma RegexSelf(s: string)
    ensures MatchesAt(s, Regex(s))
  {
    forall i | 0 <= i < |s|
      ensures AtomMatches(Regex(s)[i], s[i])
    {
      if s[i] == '.' {
        assert !IsLineTerminator(s[i]);
      }
    }
  }

  /** `t` agrees with `p` as far as both go: a match of `p` may begin at the head of `t`. */
  ghost predicate Begins(t: string, p: Pattern) {
    forall k :: 0 <= k < |p| && k < |t| ==> AtomMatches(p[k], t[k])
  }

  lemma MatchBegins(t: string, u: string, p: Pattern)
    requires MatchesAt(t + u, p)
    ensures Begins(t, p)
  {
    forall k | 0 <= k < |p| && k < |t|
      ensures AtomMatches(p[k], t[k])
    {
      assert (t + u)[k] == t[k];
    }
  }

  /** A disagreement inside `t` rules out a match at the head of `t + u`. */
  lemma MismatchAt(t: string, u: string, p: Pattern, k: nat)
    requires k < |t| && k < |p| && !AtomMatches(p[k], t[k])
    ensures !MatchesAt(t + u, p)
  {
    if MatchesAt(t + u, p) {
      MatchBegins(t, u, p);
    }
  }

  /**
   * A stretch `s` at whose head no match starts, and past whose head every
   * possible match fails inside `s`, is copied through unchanged.
   */
  lemma PassOver(s: string, rest: string, p: Pattern, r: string)
    requires |p| > 0 && !MatchesAt(s + rest, p)
    requires forall i :: 1 <= i < |s| ==> !Begins(s[i..], p)
    ensures ReplaceAll(s + rest, p, r) == s + ReplaceAll(rest, p, r)
  {
    var m := ReplaceMatcher(p, r);
    ReplaceMatcherSound(p, r);
    forall i | 0 <= i < |s|
      ensures m((s + rest)[i..]).None?
    {
      assert (s + rest)[i..] == s[i..] + rest;
      if i > 0 && MatchesAt(s[i..] + rest, p) {
        MatchBegins(s[i..], rest, p);
      }
    }
    ScanSkip(s, rest, m);
  }

  /** A stretch that is exactly one match is replaced, and the scan resumes after it. */
  lemma HitHead(s: string, rest: string, p: Pattern, r: string)
    requires |p| == |s| > 0 && MatchesAt(s, p)
    ensures ReplaceAll(s + rest, p, r) == r + ReplaceAll(rest, p, r)
  {
    ReplaceMatcherSound(p, r);
    forall k | 0 <= k < |p|
      ensures AtomMatches(p[k], (s + rest)[k])
    {
      assert (s + rest)[k] == s[k];
    }
    assert (s + rest)[|p|..] == rest;
  }

  /**
   * When no proper end of `p` matches at the head of `b`, no match straddles
   * the start of `b`, so the replace-all splits there.
   */
  lemma SplitAt(a: string, b: string, p: Pattern, r: string)
    requires |p| > 0 && forall k :: 1 <= k < |p| ==> !MatchesAt(b, p[k..])
    ensures ReplaceAll(a + b, p, r) == ReplaceAll(a, p, r) + ReplaceAll(b, p, r)
  {
    var m := ReplaceMatcher(p, r);
    ReplaceMatcherSound(p, r);
    forall i | 0 <= i < |a|
      ensures m((a + b)[i..]) == m(a[i..])
      ensures m(a[i..]).Some? ==> i + m(a[i..]).value.len <= |a|
    {
      var t := (a + b)[i..];
      assert t == a[i..] + b;
      if |p| <= |a| - i {
        assert forall k :: 0 <= k < |p| ==> t[k] == a[i..][k];
      } else if MatchesAt(a[i..] + b, p) {
        StraddleEnd(a[i..], b, p);
      }
    }
    ScanAppend(a, b, m);
  }

  lemma StraddleEnd(a: string, b: string, p: Pattern)
    requires |a| < |p| && MatchesAt(a + b, p)
    ensures MatchesAt(b, p[|a|..])
  {
    forall j | 0 <= j < |p| - |a|
      ensures AtomMatches(p[|a|..][j], b[j])
    {
      assert (a + b)[|a| + j] == b[j];
    }
  }

  /** No proper end of `r` is also a start of `r`. */
  ghost predicate Unbordered(r: string) {
    forall j :: 1 <= j < |r| ==> r[j..] != r[..|r| - j]
  }

  /**
   * A character copied ahead of a replace-all's output does not start an
   * `r` that the input lacked, when `r` cannot overlap itself: any
   * replacement reached inside it would be a proper end of `r` that is also
   * a start.
   */
  lemma NoFreshHead(t: string, p: string, r: string)
    requires |p| > 0 && |r| > 0 && Unbordered(r) && t != [] && !OccursAt(t, r, 0)
    ensures !StartsWith([t[0]] + ReplaceText(t[1..], p, r), r)
  {
    var m1 := ReplaceMatcher(Literal(p), r);
    ReplaceMatcherSound(Literal(p), r);
    var rest := t[1..];
    var x := ReplaceText(rest, p, r);
    if StartsWith([t[0]] + x, r) {
      var n := |r| - 1;
      HeadTail(t[0], x, r);
      ScanPrefix(rest, m1, n);
      if n <= |rest| && x[..n] == rest[..n] {
        CopiedHead(t, r);
      } else {
        var h :| 0 <= h < n && HitAt(rest, m1, h);
        BorderFromHit(r, x, h);
      }
    }
  }

  lemma HeadTail(c: char, x: string, r: string)
    requires |r| > 0 && StartsWith([c] + x, r)
    ensures c == r[0] && |r| - 1 <= |x| && x[..|r| - 1] == r[1..]
  {
    assert ([c] + x)[..|r|] == r;
    assert ([c] + x)[..|r|][1..] == x[..|r| - 1];
  }

  lemma CopiedHead(t: string, r: string)
    requires |r| > 0 && t != [] && t[0] == r[0] && |r| - 1 <= |t| - 1 && t[1..][..|r| - 1] == r[1..]
    ensures OccursAt(t, r, 0)
  {
    assert t[0..|r|] == [t[0]] + t[1..][..|r| - 1];
    assert r == [r[0]] + r[1..];
  }

  lemma BorderFromHit(r: string, x: string, h: nat)
    requires |r| > 0 && h < |r| - 1 && |r| - 1 <= |x| && x[..|r| - 1] == r[1..]
    requires h <= |x| && |r| <= |x[h..]| && x[h..][..|r|] == r
    ensures !Unbordered(r)
  {
    var n := |r| - 1;
    forall j | h + 1 <= j < |r|
      ensures r[j] == r[j - (h + 1)]
    {
      assert r[j] == x[j - 1];
      assert x[h..][..|r|][j - (h + 1)] == x[j - 1];
    }
    assert r[h + 1..] == r[..|r| - (h + 1)];
  }

  /**
   * Replacing every `p` by a text `r` that the input lacks and that cannot
   * overlap itself is undone by replacing every `r` by `p`.
   */
  lemma {:induction false} ReplaceBack(t: string, p: string, r: string)
    requires |p| > 0 && |r| > 0 && Unbordered(r) && !Contains(t, r)
    ensures ReplaceText(ReplaceText(t, p, r), r, p) == t
    decreases |t|
  {
    ReplaceMatcherSound(Literal(p), r);
    ReplaceMatcherSound(Literal(r), p);
    if t == [] {
      return;
    }
    var k := if StartsWith(t, p) then |p| else 1;
    var rest := t[k..];
    forall i | 0 <= i <= |rest| - |r| && OccursAt(rest, r, i)
      ensures false
    {
      OccursInSuffix(t, r, k, i);
    }
    ReplaceBack(rest, p, r);
    var x := ReplaceText(rest, p, r);
    LiteralMatches(t, p);
    if StartsWith(t, p) {
      assert ReplaceText(t, p, r) == r + x;
      LiteralMatches(r, r);
      HitHead(r, x, Literal(r), p);
      assert t == p + rest;
    } else {
      assert ReplaceText(t, p, r) == [t[0]] + x;
      assert !OccursAt(t, r, 0);
      NoFreshHead(t, p, r);
      LiteralMatches([t[0]] + x, r);
      assert ([t[0]] + x)[1..] == x;
    }
  }
}
