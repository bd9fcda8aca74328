/**
 * The text rewriting of the populate command (packages/cli-rs/src/main.rs):
 * the two quoted placeholder variants, the arrow-function fix-up done with
 * the regular expression `=>([\s]*)<placeholder>`, and the plain
 * substitution done with `str::replace`.
 */
module Rewriter {
  import opened Wrappers
  import opened Strings
  import opened Scanner
  import opened Pattern

  const PlaceholderToken := "__import_meta_env_placeholder__"

  /** The placeholder as the build leaves it, in double quotes. */
  const DoubleQuoted := "\"" + PlaceholderToken + "\""

  /** The placeholder as the build leaves it, in single quotes. */
  const SingleQuoted := "'" + PlaceholderToken + "'"

  /** The variants in the order the command processes them. */
  const Variants := [DoubleQuoted, SingleQuoted]

  /**
   * The characters a variant is made of. Neither variant contains a regular
   * expression metacharacter, so the arrow expression built by formatting
   * one into `=>([\s]*){}` searches for it literally.
   */
  predicate IsTokenChar(c: char) {
    c == '"' || c == '\'' || c == '_' || ('a' <= c <= 'z')
  }

  /** Rust regex `\s`: the Unicode White_Space property. */
  predicate IsSpace(c: char) {
    || ('\t' <= c <= '\r')
    || c == ' '
    || c == '\U{85}'
    || c == '\U{A0}'
    || c == '\U{1680}'
    || ('\U{2000}' <= c <= '\U{200A}')
    || c == '\U{2028}'
    || c == '\U{2029}'
    || c == '\U{202F}'
    || c == '\U{205F}'
    || c == '\U{3000}'
  }

  predicate AllSpaces(w: string) {
    forall i :: 0 <= i < |w| ==> IsSpace(w[i])
  }

  /**
   * A serialised map fit for the arrow template: a `$` in it would be read
   * by `Regex::replace_all` as a capture-group reference, which is not
   * modelled.
   */
  predicate NoDollar(json: string) {
    '$' !in json
  }

  /**
   * The shape both variants share: a quote, token characters without a
   * quote, and the same quote again.
   */
  predicate Quoted(p: string) {
    && |p| >= 2
    && (p[0] == '"' || p[0] == '\'')
    && p[|p| - 1] == p[0]
    && (forall i :: 0 <= i < |p| ==> IsTokenChar(p[i]))
    && (forall i :: 0 < i < |p| - 1 ==> p[i] != '"' && p[i] != '\'')
  }

  lemma VariantShape(p: string)
    requires p in Variants
    ensures Quoted(p)
  {
  }

  /** Two distinct variants open with different quotes, which the other does not hold. */
  lemma VariantsDiffer(p: string, q: string)
    requires p in Variants && q in Variants && p != q
    ensures Quoted(p) && Quoted(q) && p[0] !in q && q[0] !in p
  {
    VariantShape(p);
    VariantShape(q);
    assert p[0] != q[0];
    QuoteNotIn(p, q);
    QuoteNotIn(q, p);
  }

  lemma QuoteNotIn(p: string, q: string)
    requires Quoted(p) && Quoted(q) && p[0] != q[0]
    ensures p[0] !in q
  {
    forall i | 0 <= i < |q|
      ensures q[i] != p[0]
    {
      if i == 0 || i == |q| - 1 {
        assert q[i] == q[0];
      }
    }
  }

  /** The greedy `[\s]*`: the longest run of whitespace at the head of `s`. */
  function SpaceRun(s: string): (w: string)
    ensures |w| <= |s| && w == s[..|w|] && AllSpaces(w)
    ensures |w| < |s| ==> !IsSpace(s[|w|])
  {
    if s == [] || !IsSpace(s[0]) then [] else [s[0]] + SpaceRun(s[1..])
  }

  lemma SpaceRunOf(w: string, x: string)
    requires AllSpaces(w) && (x == [] || !IsSpace(x[0]))
    ensures SpaceRun(w + x) == w
  {
    if w != [] {
      assert (w + x)[1..] == w[1..] + x;
      SpaceRunOf(w[1..], x);
    } else {
      assert w + x == x;
    }
  }

  lemma SpaceRunExtend(x: string, b: string)
    requires b == [] || !IsSpace(b[0])
    ensures SpaceRun(x + b) == SpaceRun(x)
  {
    if x == [] {
      assert x + b == b;
    } else {
      assert (x + b)[1..] == x[1..] + b;
      SpaceRunExtend(x[1..], b);
    }
  }

  /**
   * A match of `=>([\s]*)p` at the head of `t`, replaced by `=>$1(json)`.
   * A variant opens with a quote, not whitespace, so the greedy run can only
   * match when the variant follows the whole run.
   */
  function ArrowHit(t: string, p: string, json: string): Option<Hit> {
    if StartsWith(t, "=>") then
      var w := SpaceRun(t[2..]);
      if StartsWith(t[2 + |w|..], p) then Some(Hit(2 + |w| + |p|, "=>" + w + "(" + json + ")"))
      else None
    else None
  }

  function ArrowMatcher(p: string, json: string): Matcher {
    t => ArrowHit(t, p, json)
  }

  lemma ArrowMatcherSound(p: string, json: string)
    ensures Sound(ArrowMatcher(p, json))
  {
    forall t | ArrowMatcher(p, json)(t).Some?
      ensures 1 <= ArrowMatcher(p, json)(t).value.len <= |t|
    {
      var w := SpaceRun(t[2..]);
      assert StartsWith(t[2 + |w|..], p);
    }
  }

  /** `arrow_function_re.replace_all(contents, "=>$1(<json>)")` (main.rs). */
  function ArrowRewrite(contents: string, p: string, json: string): string
    requires NoDollar(json)
  {
    ArrowMatcherSound(p, json);
    Scan(contents, ArrowMatcher(p, json))
  }

  /** The populate step for one variant: the arrow fix-up, then `str::replace`. */
  function PopulateText(contents: string, p: string, json: string): string
    requires |p| > 0 && NoDollar(json)
  {
    ReplaceText(ArrowRewrite(contents, p, json), p, json)
  }

  /** The serialised map is a braced object text, as serde_json writes it. */
  predicate Braced(json: string) {
    |json| >= 2 && json[0] == '{' && json[|json| - 1] == '}'
  }

  // ----- arrow fix-up -----

  lemma ArrowHitAt(w: string, rest: string, p: string, json: string)
    requires Quoted(p) && AllSpaces(w)
    ensures ArrowHit("=>" + w + p + rest, p, json) == Some(Hit(2 + |w| + |p|, "=>" + w + "(" + json + ")"))
  {
    var s := "=>" + w + p + rest;
    assert s[..2] == "=>";
    assert s[2..] == w + (p + rest);
    SpaceRunOf(w, p + rest);
    assert s[2 + |w|..] == p + rest;
    assert (p + rest)[..|p|] == p;
  }

  /**
   * `=>`, a whitespace run `w` (newlines included) and the variant become
   * `=>`, the same `w`, and the serialised map in parentheses.
   */
  lemma ArrowWrap(w: string, rest: string, p: string, json: string)
    requires Quoted(p) && NoDollar(json) && AllSpaces(w)
    ensures ArrowRewrite("=>" + w + p + rest, p, json)
         == "=>" + w + "(" + json + ")" + ArrowRewrite(rest, p, json)
  {
    ArrowMatcherSound(p, json);
    var s := "=>" + w + p + rest;
    ArrowHitAt(w, rest, p, json);
    assert s[2 + |w| + |p|..] == rest;
  }

  /** An arrow match needs the variant to occur where the run ends. */
  lemma ArrowHitNeedsVariant(s: string, i: nat, p: string, json: string)
    requires i <= |s| && ArrowHit(s[i..], p, json).Some?
    ensures Contains(s, p)
  {
    var t := s[i..];
    var w := SpaceRun(t[2..]);
    assert t[2 + |w|..][..|p|] == s[i + 2 + |w|..i + 2 + |w| + |p|];
    assert OccursAt(s, p, i + 2 + |w|);
  }

  lemma ArrowUnchanged(s: string, p: string, json: string)
    requires NoDollar(json) && !Contains(s, p)
    ensures ArrowRewrite(s, p, json) == s
  {
    ArrowMatcherSound(p, json);
    forall i | 0 <= i < |s|
      ensures ArrowMatcher(p, json)(s[i..]).None?
    {
      if ArrowHit(s[i..], p, json).Some? {
        ArrowHitNeedsVariant(s, i, p, json);
      }
    }
    ScanNoHits(s, ArrowMatcher(p, json));
  }

  /** Characters an arrow match can be made of. */
  predicate ArrowChar(c: char, p: string) {
    c == '=' || c == '>' || IsSpace(c) || c in p
  }

  lemma ArrowHitExtend(t: string, b: string, p: string, json: string)
    requires b == [] || !ArrowChar(b[0], p)
    ensures ArrowHit(t + b, p, json) == ArrowHit(t, p, json)
    ensures ArrowHit(t, p, json).Some? ==> ArrowHit(t, p, json).value.len <= |t|
  {
    assert b != [] ==> b[0] !in "=>";
    StartsWithExtend(t, b, "=>");
    if StartsWith(t, "=>") {
      ArrowTailExtend(t, b, p);
    }
  }

  /** Past the `=>`, the run of spaces and the variant after it are read the same with `b` appended. */
  lemma ArrowTailExtend(t: string, b: string, p: string)
    requires |t| >= 2 && (b == [] || !ArrowChar(b[0], p))
    ensures SpaceRun((t + b)[2..]) == SpaceRun(t[2..])
    ensures var w := SpaceRun(t[2..]);
      StartsWith((t + b)[2 + |w|..], p) == StartsWith(t[2 + |w|..], p)
  {
    assert (t + b)[2..] == t[2..] + b;
    SpaceRunExtend(t[2..], b);
    var w := SpaceRun(t[2..]);
    assert (t + b)[2 + |w|..] == t[2 + |w|..] + b;
    StartsWithExtend(t[2 + |w|..], b, p);
  }

  /** No arrow match starting in `a` reaches into a `b` that opens with a foreign character. */
  lemma ArrowLocal(a: string, b: string, p: string, json: string)
    requires b == [] || !ArrowChar(b[0], p)
    ensures LocalTo(ArrowMatcher(p, json), a, b)
  {
    forall i | 0 <= i < |a|
      ensures ArrowMatcher(p, json)((a + b)[i..]) == ArrowMatcher(p, json)(a[i..])
      ensures ArrowMatcher(p, json)(a[i..]).Some? ==> i + ArrowMatcher(p, json)(a[i..]).value.len <= |a|
    {
      assert (a + b)[i..] == a[i..] + b;
      ArrowHitExtend(a[i..], b, p, json);
    }
  }

  /** A text without `=` passes the arrow fix-up untouched. */
  lemma ArrowSkip(t: string, c: string, p: string, json: string)
    requires NoDollar(json) && '=' !in t
    ensures ArrowRewrite(t + c, p, json) == t + ArrowRewrite(c, p, json)
  {
    ArrowMatcherSound(p, json);
    forall i | 0 <= i < |t|
      ensures ArrowMatcher(p, json)((t + c)[i..]).None?
    {
      assert (t + c)[i..][0] == t[i];
      NoArrowAt((t + c)[i..], p, json);
    }
    ScanSkip(t, c, ArrowMatcher(p, json));
  }

  lemma NoArrowAt(u: string, p: string, json: string)
    requires u != [] && u[0] != '='
    ensures ArrowHit(u, p, json).None?
  {
    if |u| >= 2 {
      assert u[..2][0] != "=>"[0];
    }
  }

  // ----- the populate step -----

  /** A file without the variant is written back byte for byte. */
  lemma PopulateUnchanged(contents: string, p: string, json: string)
    requires Quoted(p) && NoDollar(json) && !Contains(contents, p)
    ensures PopulateText(contents, p, json) == contents
  {
    ArrowUnchanged(contents, p, json);
    TextUnchanged(contents, p, json);
  }

  /** A text that starts and ends with characters foreign to `q`, and does not hold `q`, avoids `q`. */
  lemma FencedAvoids(o: string, q: string)
    requires |o| >= 1 && o[0] !in q && o[|o| - 1] !in q && !Contains(o, q)
    ensures Avoids(o, q)
  {
    forall n | 1 <= n < |q| && n <= |o|
      ensures q[|q| - n..] != o[..n]
    {
      assert q[|q| - n..][0] in q;
    }
    forall n | 1 <= n < |q| && n <= |o|
      ensures q[..n] != o[|o| - n..]
    {
      assert q[..n][n - 1] in q;
    }
  }

  lemma NotAtInArrowOutput(a: string, json: string, b: string, q: string, k: nat)
    requires Quoted(q) && !Contains(json, q)
    requires q[0] !in a && q[0] !in b && b != [] && !IsTokenChar(b[0])
    requires k + |q| <= |a + json + b|
    ensures !OccursAt(a + json + b, q, k)
  {
    var o := a + json + b;
    if k < |a| {
      assert o[k..k + |q|][0] == a[k];
    } else if k >= |a| + |json| {
      assert o[k..k + |q|][0] == b[k - |a| - |json|];
    } else if k + |q| <= |a| + |json| {
      assert o[k..k + |q|] == json[k - |a|..k - |a| + |q|];
      assert !OccursAt(json, q, k - |a|);
    } else {
      var d := |a| + |json| - k;
      assert o[k..k + |q|][d] == b[0];
      assert IsTokenChar(q[d]);
    }
  }

  /**
   * An occurrence of a variant in `a + json + b` lies inside `json` when its
   * opening quote is in neither `a` nor `b` and `b` opens with a character
   * foreign to every variant.
   */
  lemma NotInArrowOutput(a: string, json: string, b: string, q: string)
    requires Quoted(q) && !Contains(json, q)
    requires q[0] !in a && q[0] !in b && b != [] && !IsTokenChar(b[0])
    ensures !Contains(a + json + b, q)
  {
    var o := a + json + b;
    forall k | 0 <= k <= |o| - |q|
      ensures !OccursAt(o, q, k)
    {
      NotAtInArrowOutput(a, json, b, q, k);
    }
  }

  lemma ArrowOutputAvoids(p: string, json: string, q: string)
    requires Quoted(q) && !Contains(json, q)
    ensures forall t :: ArrowMatcher(p, json)(t).Some? ==> Avoids(ArrowMatcher(p, json)(t).value.out, q)
  {
    forall t | ArrowMatcher(p, json)(t).Some?
      ensures Avoids(ArrowMatcher(p, json)(t).value.out, q)
    {
      var w := SpaceRun(t[2..]);
      var x := "=>" + w + "(";
      assert forall i :: 0 <= i < |x| ==> x[i] == '=' || x[i] == '>' || x[i] == '(' || IsSpace(x[i]);
      assert IsTokenChar(q[0]);
      NotInArrowOutput(x, json, ")", q);
      var o := x + json + ")";
      assert ArrowMatcher(p, json)(t).value.out == o;
      assert o[0] == '=' && o[|o| - 1] == ')';
      FencedAvoids(o, q);
    }
  }

  /**
   * After the populate step no occurrence of the variant is left, provided
   * the serialised map is braced and does not itself hold the variant.
   */
  lemma PopulateRemoves(contents: string, p: string, json: string)
    requires Quoted(p) && NoDollar(json) && Braced(json) && !Contains(json, p)
    ensures !Contains(PopulateText(contents, p, json), p)
  {
    FencedAvoids(json, p);
    TextRemoved(ArrowRewrite(contents, p, json), p, json);
  }

  /** The populate step for one variant creates no occurrence of a variant that was absent. */
  lemma PopulateKeepsAbsent(contents: string, p: string, q: string, json: string)
    requires Quoted(p) && Quoted(q) && NoDollar(json) && Braced(json)
    requires !Contains(json, q) && !Contains(contents, q)
    ensures !Contains(PopulateText(contents, p, json), q)
  {
    ArrowMatcherSound(p, json);
    ArrowOutputAvoids(p, json, q);
    ScanAvoid(contents, ArrowMatcher(p, json), q);
    FencedAvoids(json, q);
    TextKeepsAbsent(ArrowRewrite(contents, p, json), p, json, q);
  }

  lemma ArrowSplits(x: string, y: string, p: string, q: string, json: string)
    requires Quoted(p) && Quoted(q) && q[0] !in p && NoDollar(json)
    ensures ArrowRewrite(x + q + y, p, json) == ArrowRewrite(x, p, json) + (q + ArrowRewrite(y, p, json))
  {
    ArrowMatcherSound(p, json);
    assert !ArrowChar(q[0], p);
    ArrowLocal(x, q + y, p, json);
    assert x + q + y == x + (q + y);
    ScanAppend(x, q + y, ArrowMatcher(p, json));
    assert '=' !in q;
    ArrowSkip(q, y, p, json);
  }

  lemma TextSplits(a: string, b: string, p: string, q: string, json: string)
    requires Quoted(p) && Quoted(q) && q[0] !in p && p[0] !in q
    ensures ReplaceText(a + (q + b), p, json) == ReplaceText(a, p, json) + q + ReplaceText(b, p, json)
  {
    ReplaceMatcherSound(Literal(p), json);
    TextLocal(a, q + b, p, json);
    ScanAppend(a, q + b, ReplaceMatcher(Literal(p), json));
    TextSkip(q, b, p, json);
  }

  /** The populate step for one variant carries an occurrence of the other variant through. */
  lemma PopulateSplits(x: string, y: string, p: string, q: string, json: string)
    requires Quoted(p) && Quoted(q) && q[0] !in p && p[0] !in q && NoDollar(json)
    ensures PopulateText(x + q + y, p, json)
         == PopulateText(x, p, json) + q + PopulateText(y, p, json)
  {
    ArrowSplits(x, y, p, q, json);
    TextSplits(ArrowRewrite(x, p, json), ArrowRewrite(y, p, json), p, q, json);
  }

  /** An occurrence of the other variant survives the populate step. */
  lemma PopulateKeepsPresent(contents: string, p: string, q: string, json: string)
    requires Quoted(p) && Quoted(q) && q[0] !in p && p[0] !in q && NoDollar(json)
    requires Contains(contents, q)
    ensures Contains(PopulateText(contents, p, json), q)
  {
    var i :| 0 <= i <= |contents| - |q| && OccursAt(contents, q, i);
    var x, y := contents[..i], contents[i + |q|..];
    assert contents == x + q + y;
    PopulateSplits(x, y, p, q, json);
    assert OccursAt(q, q, 0);
    ContainsAppend(PopulateText(x, p, json), q, q);
    ContainsAppend(PopulateText(x, p, json) + q, PopulateText(y, p, json), q);
  }

  // ----- the two rewrites on one occurrence -----

  /**
   * `x` ends with `=>` and a (possibly empty) run of whitespace, so that a
   * variant right after it would be taken by the arrow fix-up.
   */
  predicate EndsWithArrow(x: string) {
    exists i | 0 <= i <= |x| - 2 :: x[i] == '=' && x[i + 1] == '>' && AllSpaces(x[i + 2..])
  }

  /** A text without `>` does not end with an arrow. */
  lemma NoGtNoArrow(x: string)
    requires '>' !in x
    ensures !EndsWithArrow(x)
  {
  }

  /** The greedy whitespace run stops at the first character that is not whitespace. */
  lemma {:induction false} RunStops(u: string, k: nat)
    requires k < |u| && !IsSpace(u[k])
    ensures |SpaceRun(u)| <= k
  {
    if u != [] && IsSpace(u[0]) {
      assert u[1..][k - 1] == u[k];
      RunStops(u[1..], k - 1);
    }
  }

  lemma NotStartingWith(u: string, p: string)
    requires |p| > 0 && (u == [] || u[0] != p[0])
    ensures !StartsWith(u, p)
  {
    if |p| <= |u| {
      assert u[..|p|][0] == u[0];
    }
  }

  /**
   * An arrow match starting at `i` in `x` has its whitespace run stopped by
   * the first character of `r`; the variant must then start inside `x`, or
   * right at `r` when `x` ends with an arrow.
   */
  lemma NoArrowAtHead(x: string, r: string, i: nat, p: string, json: string)
    requires Quoted(p) && p[0] !in x && i < |x|
    requires r != [] && !IsSpace(r[0]) && r[0] != '>'
    requires StartsWith(r, p) ==> !EndsWithArrow(x)
    ensures ArrowHit((x + r)[i..], p, json).None?
  {
    var s := x + r;
    var t := s[i..];
    if StartsWith(t, "=>") {
      assert t[..2][1] == s[i + 1];
      assert i + 2 <= |x|;
      assert x[i] == t[..2][0];
      var w := SpaceRun(t[2..]);
      assert t[2..][|x| - i - 2] == r[0];
      RunStops(t[2..], |x| - i - 2);
      var j := i + 2 + |w|;
      assert t[2 + |w|..] == s[j..];
      if j < |x| {
        assert s[j..][0] == x[j];
        NotStartingWith(s[j..], p);
      } else {
        assert s[j..] == r;
        assert x[i + 2..] == w;
        assert EndsWithArrow(x);
      }
    }
  }

  /** No arrow match starts in `x` under the conditions of `NoArrowAtHead`. */
  lemma NoArrowInHead(x: string, r: string, p: string, json: string)
    requires Quoted(p) && p[0] !in x
    requires r != [] && !IsSpace(r[0]) && r[0] != '>'
    requires StartsWith(r, p) ==> !EndsWithArrow(x)
    ensures forall i :: 0 <= i < |x| ==> ArrowMatcher(p, json)((x + r)[i..]).None?
  {
    forall i | 0 <= i < |x|
      ensures ArrowMatcher(p, json)((x + r)[i..]).None?
    {
      NoArrowAtHead(x, r, i, p, json);
    }
  }

  /** The arrow fix-up leaves a placeholder alone when `x` before it does not end with an arrow. */
  lemma PlainArrowUnchanged(s: string, x: string, y: string, p: string, json: string)
    requires Quoted(p) && NoDollar(json)
    requires p[0] !in x && !EndsWithArrow(x) && !Contains(y, p)
    requires s == x + (p + y)
    ensures ArrowRewrite(s, p, json) == s
  {
    ArrowMatcherSound(p, json);
    assert !IsSpace(p[0]) && p[0] != '>';
    NoArrowInHead(x, p + y, p, json);
    ScanSkip(x, p + y, ArrowMatcher(p, json));
    assert '=' !in p by {
      assert forall i :: 0 <= i < |p| ==> IsTokenChar(p[i]);
    }
    ArrowSkip(p, y, p, json);
    ArrowUnchanged(y, p, json);
  }

  /**
   * A placeholder that no arrow precedes is replaced by the bare serialised
   * map, and the text around it is kept.
   */
  lemma PlainSubstitution(x: string, y: string, p: string, json: string)
    requires Quoted(p) && NoDollar(json)
    requires p[0] !in x && !EndsWithArrow(x) && !Contains(y, p)
    ensures PopulateText(x + p + y, p, json) == x + json + y
  {
    var s, o := x + p + y, x + json + y;
    assert s == x + (p + y);
    assert o == x + (json + y);
    PlainArrowUnchanged(s, x, y, p, json);
    PlainReplaced(s, o, x, y, p, json);
  }

  /** `str::replace` on a text whose only occurrence of the variant is the one after `x`. */
  lemma PlainReplaced(s: string, o: string, x: string, y: string, p: string, json: string)
    requires Quoted(p) && p[0] !in x && !Contains(y, p)
    requires s == x + (p + y) && o == x + (json + y)
    ensures ReplaceText(s, p, json) == o
  {
    TextSkip(x, p + y, p, json);
    LiteralMatches(p, p);
    HitHead(p, y, Literal(p), json);
    TextUnchanged(y, p, json);
  }

  /** The arrow fix-up on `x`, an arrow, spaces, the variant and `y`, with the parts kept apart. */
  lemma ArrowRewritten(s: string, x: string, w: string, y: string, p: string, json: string)
    requires Quoted(p) && NoDollar(json) && AllSpaces(w)
    requires p[0] !in x && p[0] !in y
    requires s == x + ("=>" + w + p + y)
    ensures ArrowRewrite(s, p, json) == x + ("=>" + w + "(" + json + ")" + y)
  {
    ArrowMatcherSound(p, json);
    var r := "=>" + w + p + y;
    NotStartingWith(r, p);
    NoArrowInHead(x, r, p, json);
    ScanSkip(x, r, ArrowMatcher(p, json));
    ArrowWrap(w, y, p, json);
    LacksChar(y, p, p[0]);
    ArrowUnchanged(y, p, json);
  }

  /** When the arrow fix-up leaves no variant, the literal replacement has nothing to do. */
  lemma PopulateAfterArrow(s: string, o: string, p: string, json: string)
    requires Quoted(p) && NoDollar(json) && !Contains(o, p)
    requires ArrowRewrite(s, p, json) == o
    ensures PopulateText(s, p, json) == o
  {
    TextUnchanged(o, p, json);
  }

  /**
   * `=>`, whitespace and a placeholder become `=>`, the same whitespace and
   * the serialised map in parentheses; nothing else changes.
   */
  lemma ArrowPopulated(x: string, w: string, y: string, p: string, json: string)
    requires Quoted(p) && NoDollar(json) && AllSpaces(w)
    requires p[0] !in x && p[0] !in y && !Contains(json, p)
    ensures PopulateText(x + "=>" + w + p + y, p, json) == x + "=>" + w + "(" + json + ")" + y
  {
    var s, o := x + "=>" + w + p + y, x + "=>" + w + "(" + json + ")" + y;
    assert s == x + ("=>" + w + p + y);
    assert o == x + ("=>" + w + "(" + json + ")" + y);
    ArrowRewritten(s, x, w, y, p, json);
    ArrowOutputLacks(x, w, json, y, p);
    PopulateAfterArrow(s, o, p, json);
  }

  /** In the arrow fix-up's output the variant could only sit inside the map, which lacks it. */
  lemma ArrowOutputLacks(x: string, w: string, json: string, y: string, p: string)
    requires Quoted(p) && AllSpaces(w) && p[0] !in x && p[0] !in y && !Contains(json, p)
    ensures !Contains(x + "=>" + w + "(" + json + ")" + y, p)
  {
    var a, b := x + "=>" + w + "(", ")" + y;
    assert p[0] !in w by {
      assert forall i :: 0 <= i < |w| ==> IsSpace(w[i]);
    }
    assert p[0] !in a;
    assert x + "=>" + w + "(" + json + ")" + y == a + json + b;
    NotInArrowOutput(a, json, b, p);
  }

}
