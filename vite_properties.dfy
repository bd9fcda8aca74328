/**
 * What the rewriting passes of the Vite plugin do to a module, proved once
 * for all texts.
 *
 * Every regular expression of the plugin begins with the letters `imp`
 * (`import.meta.env…` or the sentinel `import_meta_env_unique_id_…`), and
 * none of them can match again part-way through a text it has matched. So a
 * replace-all splits at the start of any `imp`-led stretch, and a stretch in
 * which `imp` occurs only at the head goes through a pass unchanged unless
 * the pass matches it at its head. The module-level results are:
 *
 * - `KeyRefKept`: an `import.meta.env.KEY` for an inline key comes out as
 *   it went in, whatever surrounds it and whatever replaces the others;
 * - `EnvRefReplaced`: any other `import.meta.env` becomes the replacement;
 * - `InertUnchanged`: text in which no pattern can match is left alone;
 * - `LineSplit`: no pattern spans a line terminator;
 * - `ImportSealed`: the import statement a production build adds is never
 *   rewritten.
 */
module ViteProperties {
  import opened Wrappers
  import opened Strings
  import opened Scanner
  import opened Pattern
  import opened VitePlugin

  // ----- characters of the constants -----

  /** The characters of an inline key: capital letters and `_`. */
  predicate KeyChar(c: char) {
    'A' <= c <= 'Z' || c == '_'
  }

  predicate ValidKey(k: string) {
    |k| > 0 && forall j :: 0 <= j < |k| ==> KeyChar(k[j])
  }

  /** Valid keys, told apart by their first character. */
  predicate ValidKeys(ks: seq<string>) {
    && (forall k :: k in ks ==> ValidKey(k))
    && (forall a, b :: a in ks && b in ks && a[0] == b[0] ==> a == b)
  }

  lemma InlineKeysValid()
    ensures ValidKeys(InlineEnvKeys)
  {
    var ks := InlineEnvKeys;
    forall i | 0 <= i < |ks|
      ensures ValidKey(ks[i]) && ks[i][0] == "BMDPSL"[i]
    {
    }
    forall a, b | a in ks && b in ks && a[0] == b[0]
      ensures a == b
    {
      var i :| 0 <= i < |ks| && ks[i] == a;
      var j :| 0 <= j < |ks| && ks[j] == b;
      assert "BMDPSL"[i] == "BMDPSL"[j];
    }
  }

  lemma UniqueIdAt(j: nat)
    requires j < |UniqueId|
    ensures 'a' <= UniqueId[j] <= 'z' || UniqueId[j] == '_'
    ensures UniqueId[j] == 'i' ==> j == 0 || j == 18 || j == 23
  {
  }

  /** The sentinel is written in lower-case letters and `_`; its `i`s stand at 0, 18 and 23. */
  lemma UniqueAt(j: nat)
    requires j < 256
    ensures Unique()[j] == if j < |UniqueId| then UniqueId[j] else 'x'
    ensures 'a' <= Unique()[j] <= 'z' || Unique()[j] == '_'
    ensures Unique()[j] == 'i' ==> j == 0 || j == 18 || j == 23
  {
    var u := Unique();
    if j < |UniqueId| {
      assert u[j] == u[..|UniqueId|][j];
      UniqueIdAt(j);
    }
  }

  lemma UniqueLetters()
    ensures Unique()[0] == 'i' && Unique()[1] == 'm' && Unique()[2] == 'p'
    ensures Unique()[6] == '_' && Unique()[16] == 'u' && Unique()[19] == 'q' && Unique()[24] == 'd'
  {
    UniqueAt(0);
    UniqueAt(1);
    UniqueAt(2);
    UniqueAt(6);
    UniqueAt(16);
    UniqueAt(19);
    UniqueAt(24);
  }

  /** `import.meta.env.` is written in lower-case letters and dots; its only `i` is the first. */
  lemma EnvDotAt(j: nat)
    requires j < 16
    ensures 'a' <= "import.meta.env."[j] <= 'z' || "import.meta.env."[j] == '.'
    ensures "import.meta.env."[j] == 'i' ==> j == 0
    ensures "import.meta.env."[j] == '.' <==> j == 6 || j == 11 || j == 15
  {
  }

  lemma ExposedAt(k: string, j: nat)
    requires j < |Exposed(k)|
    ensures |Exposed(k)| == 16 + |k|
    ensures j < 16 ==> Exposed(k)[j] == "import.meta.env."[j]
    ensures j >= 16 ==> Exposed(k)[j] == k[j - 16]
  {
    assert Exposed(k) == "import.meta.env." + k;
  }

  lemma HiddenAt(k: string, j: nat)
    requires j < |Hidden(k)|
    ensures |Hidden(k)| == 257 + |k|
    ensures j < 256 ==> Hidden(k)[j] == Unique()[j]
    ensures j == 256 ==> Hidden(k)[j] == '.'
    ensures j > 256 ==> Hidden(k)[j] == k[j - 257]
  {
  }

  // ----- where a match can begin -----

  /** An `imp` begins at `i`, as far as `s` goes. */
  predicate ImpAt(s: string, i: nat)
    requires i < |s|
  {
    s[i] == 'i' && (i + 1 < |s| ==> s[i + 1] == 'm') && (i + 2 < |s| ==> s[i + 2] == 'p')
  }

  /** `s` holds no `imp` past its head. */
  predicate ImpOnlyAtStart(s: string) {
    forall i :: 1 <= i < |s| ==> !ImpAt(s, i)
  }

  /** The pattern begins with the literal letters `imp`. */
  predicate LeadsImp(p: Pattern) {
    |p| >= 3 && p[0] == Lit('i') && p[1] == Lit('m') && p[2] == Lit('p')
  }

  /** The pattern from `k` on agrees with `imp`, as far as it goes. */
  predicate ImpMatchAt(p: Pattern, k: nat)
    requires k < |p|
  {
    && AtomMatches(p[k], 'i')
    && (k + 1 < |p| ==> AtomMatches(p[k + 1], 'm'))
    && (k + 2 < |p| ==> AtomMatches(p[k + 2], 'p'))
  }

  /** No proper end of the pattern can match at the head of a text that begins with `imp`. */
  predicate ImpFree(p: Pattern) {
    forall k :: 1 <= k < |p| ==> !ImpMatchAt(p, k)
  }

  /** An `imp` could be matched at `j` of a regular expression source, `.` matching anything. */
  predicate WildImpAt(s: string, j: nat)
    requires j < |s|
  {
    && (s[j] == '.' || s[j] == 'i')
    && (j + 1 < |s| ==> s[j + 1] == '.' || s[j + 1] == 'm')
    && (j + 2 < |s| ==> s[j + 2] == '.' || s[j + 2] == 'p')
  }

  lemma RegexImpFree(s: string)
    requires forall j :: 1 <= j < |s| ==> !WildImpAt(s, j)
    ensures ImpFree(Regex(s))
  {
    var p := Regex(s);
    forall k | 1 <= k < |p|
      ensures !ImpMatchAt(p, k)
    {
      assert !WildImpAt(s, k);
    }
  }

  lemma LiteralImpFree(s: string)
    requires forall j :: 1 <= j < |s| ==> s[j] != 'i'
    ensures ImpFree(Literal(s))
  {
  }

  /** A text that a whole `imp`-free pattern matches holds no `imp` past its head. */
  lemma MatchedImpOnlyAtStart(t: string, q: Pattern)
    requires |t| == |q| && MatchesAt(t, q) && ImpFree(q)
    ensures ImpOnlyAtStart(t)
  {
    forall i | 1 <= i < |t|
      ensures !ImpAt(t, i)
    {
      assert !ImpMatchAt(q, i);
    }
  }

  /** Past the head of a text without a further `imp`, no `imp`-led pattern can begin. */
  lemma NoBeginInside(t: string, p: Pattern)
    requires LeadsImp(p) && ImpOnlyAtStart(t)
    ensures forall i :: 1 <= i < |t| ==> !Begins(t[i..], p)
  {
    forall i | 1 <= i < |t|
      ensures !Begins(t[i..], p)
    {
      assert !ImpAt(t, i);
      if t[i] != 'i' {
        assert !AtomMatches(p[0], t[i..][0]);
      } else if i + 1 < |t| && t[i + 1] != 'm' {
        assert !AtomMatches(p[1], t[i..][1]);
      } else {
        assert !AtomMatches(p[2], t[i..][2]);
      }
    }
  }

  // ----- one replace-all over an `imp`-led stretch -----

  /** A replace-all splits where an `imp` begins. */
  lemma ImpSplit(a: string, b: string, p: Pattern, r: string)
    requires |p| > 0 && ImpFree(p) && StartsWith(b, "imp")
    ensures ReplaceAll(a + b, p, r) == ReplaceAll(a, p, r) + ReplaceAll(b, p, r)
  {
    assert b[0] == 'i' && b[1] == 'm' && b[2] == 'p';
    forall k | 1 <= k < |p|
      ensures !MatchesAt(b, p[k..])
    {
      assert !ImpMatchAt(p, k);
    }
    SplitAt(a, b, p, r);
  }

  /** A stretch the pattern does not match at its head passes through unchanged. */
  lemma PassToken(x: string, t: string, y: string, p: Pattern, r: string)
    requires LeadsImp(p) && ImpFree(p) && StartsWith(t, "imp") && ImpOnlyAtStart(t)
    requires !MatchesAt(t + y, p)
    ensures ReplaceAll(x + t + y, p, r) == ReplaceAll(x, p, r) + t + ReplaceAll(y, p, r)
  {
    assert x + t + y == x + (t + y);
    assert (t + y)[..3] == t[..3];
    ImpSplit(x, t + y, p, r);
    NoBeginInside(t, p);
    PassOver(t, y, p, r);
  }

  /** A stretch the whole pattern matches is replaced, and only it. */
  lemma HitToken(x: string, t: string, y: string, p: Pattern, r: string)
    requires LeadsImp(p) && ImpFree(p) && |t| == |p| && MatchesAt(t, p)
    ensures ReplaceAll(x + t + y, p, r) == ReplaceAll(x, p, r) + r + ReplaceAll(y, p, r)
  {
    assert AtomMatches(p[0], t[0]) && AtomMatches(p[1], t[1]) && AtomMatches(p[2], t[2]);
    assert x + t + y == x + (t + y);
    assert (t + y)[..3] == t[..3];
    ImpSplit(x, t + y, p, r);
    HitHead(t, y, p, r);
  }

  /** A replace-all that matches nowhere changes nothing. */
  lemma NoHitsUnchanged(t: string, p: Pattern, r: string)
    requires |p| > 0 && forall i :: 0 <= i < |t| ==> !MatchesAt(t[i..], p)
    ensures ReplaceAll(t, p, r) == t
  {
    ReplaceMatcherSound(p, r);
    ScanNoHits(t, ReplaceMatcher(p, r));
  }

  // ----- the plugin's patterns -----

  /** No atom of the pattern matches a line terminator. */
  predicate LineFree(p: Pattern) {
    forall j :: 0 <= j < |p| ==> p[j].AnyChar? || !IsLineTerminator(p[j].c)
  }

  lemma RegexAt(s: string, j: nat)
    requires j < |s|
    ensures Regex(s)[j] == if s[j] == '.' then AnyChar else Lit(s[j])
  {
  }

  lemma KeyPatternFacts(k: string)
    requires ValidKey(k)
    ensures |KeyPattern(k)| == 16 + |k|
    ensures LeadsImp(KeyPattern(k)) && ImpFree(KeyPattern(k)) && LineFree(KeyPattern(k))
    ensures forall j :: 16 <= j < |KeyPattern(k)| ==> KeyPattern(k)[j] == Lit(k[j - 16])
    ensures forall j :: 0 <= j < 15 ==> KeyPattern(k)[j] == Regex(EnvRef)[j]
  {
    var e := Exposed(k);
    var p := KeyPattern(k);
    ExposedAt(k, 0);
    forall j | 0 <= j < |e|
      ensures p[j] == (if j < 16 then Regex("import.meta.env.")[j] else Lit(k[j - 16]))
      ensures 'a' <= e[j] <= 'z' || e[j] == '.' || KeyChar(e[j])
      ensures e[j] == 'i' ==> j == 0
      ensures e[j] == '.' <==> j == 6 || j == 11 || j == 15
    {
      ExposedAt(k, j);
      if j < 16 {
        EnvDotAt(j);
      }
    }
    forall j | 1 <= j < |e|
      ensures !WildImpAt(e, j)
    {
      if j + 1 < |e| {
        ExposedAt(k, j + 1);
      }
    }
    RegexImpFree(e);
    forall j | 0 <= j < 15
      ensures p[j] == Regex(EnvRef)[j]
    {
      ExposedAt(k, j);
    }
  }

  lemma RestorePatternFacts(k: string)
    requires ValidKey(k)
    ensures |RestorePattern(k)| == 257 + |k|
    ensures LeadsImp(RestorePattern(k)) && ImpFree(RestorePattern(k)) && LineFree(RestorePattern(k))
    ensures forall j :: 0 <= j < 256 ==> RestorePattern(k)[j] == Lit(Unique()[j])
    ensures RestorePattern(k)[256] == AnyChar
    ensures forall j :: 257 <= j < |RestorePattern(k)| ==> RestorePattern(k)[j] == Lit(k[j - 257])
  {
    var h := Hidden(k);
    UniqueLetters();
    HiddenChars(k);
    forall j | 1 <= j < |h|
      ensures !WildImpAt(h, j)
    {
      if j + 1 < |h| {
        HiddenAt(k, j + 1);
      }
    }
    RegexImpFree(h);
  }

  /** Character by character: `unique`, the dot the pattern reads as any code unit, and the key. */
  lemma HiddenChars(k: string)
    requires ValidKey(k)
    ensures forall j :: 0 <= j < |Hidden(k)| ==>
      && RestorePattern(k)[j] == (if j == 256 then AnyChar else Lit(Hidden(k)[j]))
      && (j < 256 ==> Hidden(k)[j] == Unique()[j])
      && ('a' <= Hidden(k)[j] <= 'z' || Hidden(k)[j] == '.' || KeyChar(Hidden(k)[j]))
      && (Hidden(k)[j] == 'i' ==> j == 0 || j == 18 || j == 23)
      && (Hidden(k)[j] == '.' <==> j == 256)
  {
    var h := Hidden(k);
    var p := RestorePattern(k);
    forall j | 0 <= j < |h|
      ensures p[j] == (if j == 256 then AnyChar else Lit(h[j]))
      ensures j < 256 ==> h[j] == Unique()[j]
      ensures 'a' <= h[j] <= 'z' || h[j] == '.' || KeyChar(h[j])
      ensures h[j] == 'i' ==> j == 0 || j == 18 || j == 23
      ensures h[j] == '.' <==> j == 256
    {
      HiddenAt(k, j);
      if j < 256 {
        UniqueAt(j);
      }
    }
  }

  lemma EnvPatternFacts()
    ensures |Literal(EnvRef)| == 15
    ensures LeadsImp(Literal(EnvRef)) && ImpFree(Literal(EnvRef)) && LineFree(Literal(EnvRef))
    ensures Literal(EnvRef)[0] == Lit('i') && Literal(EnvRef)[6] == Lit('.')
  {
    LiteralImpFree(EnvRef);
  }

  // ----- the plugin's texts -----

  lemma ExposedFacts(k: string)
    requires ValidKey(k)
    ensures StartsWith(Exposed(k), "imp") && ImpOnlyAtStart(Exposed(k))
    ensures |Exposed(k)| == |KeyPattern(k)| && MatchesAt(Exposed(k), KeyPattern(k))
    ensures Exposed(k)[1] == 'm' && Exposed(k)[6] == '.'
  {
    ExposedAt(k, 0);
    ExposedAt(k, 1);
    ExposedAt(k, 2);
    ExposedAt(k, 6);
    RegexSelf(Exposed(k));
    KeyPatternFacts(k);
    MatchedImpOnlyAtStart(Exposed(k), KeyPattern(k));
  }

  lemma HiddenFacts(k: string)
    requires ValidKey(k)
    ensures StartsWith(Hidden(k), "imp") && ImpOnlyAtStart(Hidden(k))
    ensures |Hidden(k)| == |RestorePattern(k)| && MatchesAt(Hidden(k), RestorePattern(k))
    ensures Hidden(k)[1] == 'm' && Hidden(k)[6] == '_' && Hidden(k)[16] == 'u' && Hidden(k)[257] == k[0]
  {
    UniqueLetters();
    HiddenAt(k, 0);
    HiddenAt(k, 1);
    HiddenAt(k, 2);
    HiddenAt(k, 6);
    HiddenAt(k, 16);
    HiddenAt(k, 257);
    RegexSelf(Hidden(k));
    RestorePatternFacts(k);
    MatchedImpOnlyAtStart(Hidden(k), RestorePattern(k));
  }

  lemma EnvRefFacts()
    ensures StartsWith(EnvRef, "imp") && ImpOnlyAtStart(EnvRef)
    ensures MatchesAt(EnvRef, Literal(EnvRef))
  {
    LiteralMatches(EnvRef, EnvRef);
    EnvPatternFacts();
    MatchedImpOnlyAtStart(EnvRef, Literal(EnvRef));
  }

  lemma UniqueFacts()
    ensures StartsWith(Unique(), "imp") && ImpOnlyAtStart(Unique())
  {
    UniqueLetters();
    forall i | 1 <= i < 256
      ensures !ImpAt(Unique(), i)
    {
      UniqueAt(i);
    }
  }

  // ----- texts that every pass of a pattern leaves in place -----

  /** Every replace-all of `p` goes round `t` and splits at both its ends. */
  ghost predicate Sealed(t: string, p: Pattern) {
    |p| > 0 &&
    forall x, y, r :: ReplaceAll(x + t + y, p, r) == ReplaceAll(x, p, r) + t + ReplaceAll(y, p, r)
  }

  /** An `imp`-led stretch that the pattern fails on at index `j` is sealed. */
  lemma SealedBy(t: string, p: Pattern, j: nat)
    requires LeadsImp(p) && ImpFree(p) && StartsWith(t, "imp") && ImpOnlyAtStart(t)
    requires j < |t| && j < |p| && !AtomMatches(p[j], t[j])
    ensures Sealed(t, p)
  {
    forall x, y, r
      ensures ReplaceAll(x + t + y, p, r) == ReplaceAll(x, p, r) + t + ReplaceAll(y, p, r)
    {
      MismatchAt(t, y, p, j);
      PassToken(x, t, y, p, r);
    }
  }

  lemma KeysTail(ks: seq<string>)
    requires ValidKeys(ks) && ks != []
    ensures ValidKeys(ks[1..])
  {
    assert forall k :: k in ks[1..] ==> k in ks;
  }

  lemma {:induction false} PreserveSealed(x: string, t: string, y: string, ks: seq<string>)
    requires forall k :: k in ks ==> Sealed(t, KeyPattern(k))
    ensures Preserve(x + t + y, ks) == Preserve(x, ks) + t + Preserve(y, ks)
    decreases |ks|
  {
    if ks != [] {
      var k := ks[0];
      assert Sealed(t, KeyPattern(k));
      var x', y' := ReplaceAll(x, KeyPattern(k), Hidden(k)), ReplaceAll(y, KeyPattern(k), Hidden(k));
      assert ReplaceAll(x + t + y, KeyPattern(k), Hidden(k)) == x' + t + y';
      PreserveSealed(x', t, y', ks[1..]);
    }
  }

  lemma {:induction false} RestoreSealed(x: string, t: string, y: string, ks: seq<string>)
    requires forall k :: k in ks ==> Sealed(t, RestorePattern(k))
    ensures Restore(x + t + y, ks) == Restore(x, ks) + t + Restore(y, ks)
    decreases |ks|
  {
    if ks != [] {
      var k := ks[0];
      assert Sealed(t, RestorePattern(k));
      var x', y' := ReplaceAll(x, RestorePattern(k), Exposed(k)), ReplaceAll(y, RestorePattern(k), Exposed(k));
      assert ReplaceAll(x + t + y, RestorePattern(k), Exposed(k)) == x' + t + y';
      RestoreSealed(x', t, y', ks[1..]);
    }
  }

  /** A hidden key is not matched by any key pattern: the sentinel has `u` where the key begins. */
  lemma HiddenSealedFromKeys(key: string, ks: seq<string>)
    requires ValidKey(key) && forall k :: k in ks ==> ValidKey(k)
    ensures forall k :: k in ks ==> Sealed(Hidden(key), KeyPattern(k))
  {
    HiddenFacts(key);
    forall k | k in ks
      ensures Sealed(Hidden(key), KeyPattern(k))
    {
      KeyPatternFacts(k);
      SealedBy(Hidden(key), KeyPattern(k), 16);
    }
  }

  /** A hidden key holds no `import.meta.env`: the sentinel has `_` where the first dot stands. */
  lemma HiddenSealedFromEnvRef(key: string)
    requires ValidKey(key)
    ensures Sealed(Hidden(key), Literal(EnvRef))
  {
    HiddenFacts(key);
    EnvPatternFacts();
    SealedBy(Hidden(key), Literal(EnvRef), 6);
  }

  /** An exposed key is not matched by any restore pattern: it has `.` where the sentinel has `_`. */
  lemma ExposedSealedFromRestore(key: string, ks: seq<string>)
    requires ValidKey(key) && forall k :: k in ks ==> ValidKey(k)
    ensures forall k :: k in ks ==> Sealed(Exposed(key), RestorePattern(k))
  {
    ExposedFacts(key);
    UniqueLetters();
    forall k | k in ks
      ensures Sealed(Exposed(key), RestorePattern(k))
    {
      RestorePatternFacts(k);
      SealedBy(Exposed(key), RestorePattern(k), 6);
    }
  }

  // ----- an inline key is kept -----

  lemma {:induction false} PreserveKey(x: string, h: string, key: string, y: string, ks: seq<string>)
    requires ValidKeys(ks) && key in ks
    requires |h| == |KeyPattern(key)| && MatchesAt(h, KeyPattern(key))
    ensures Preserve(x + h + y, ks) == Preserve(x, ks) + Hidden(key) + Preserve(y, ks)
    decreases |ks|
  {
    var k := ks[0];
    var p := KeyPattern(k);
    KeysTail(ks);
    var x', y' := ReplaceAll(x, p, Hidden(k)), ReplaceAll(y, p, Hidden(k));
    if k == key {
      PreserveSame(x, h, key, y);
      HiddenSealedFromKeys(key, ks[1..]);
      PreserveSealed(x', Hidden(key), y', ks[1..]);
    } else {
      assert ks == [k] + ks[1..];
      PreserveOther(x, h, key, y, k);
      PreserveKey(x', h, key, y', ks[1..]);
    }
  }

  /** The preserve pass of a key hides a match of its pattern behind `unique`. */
  lemma PreserveSame(x: string, h: string, key: string, y: string)
    requires ValidKey(key) && |h| == |KeyPattern(key)| && MatchesAt(h, KeyPattern(key))
    ensures ReplaceAll(x + h + y, KeyPattern(key), Hidden(key))
         == ReplaceAll(x, KeyPattern(key), Hidden(key)) + Hidden(key) + ReplaceAll(y, KeyPattern(key), Hidden(key))
  {
    KeyPatternFacts(key);
    HitToken(x, h, y, KeyPattern(key), Hidden(key));
  }

  /** The preserve pass of one key leaves a match of another key's pattern alone. */
  lemma PreserveOther(x: string, h: string, key: string, y: string, k: string)
    requires ValidKey(key) && ValidKey(k) && key[0] != k[0]
    requires |h| == |KeyPattern(key)| && MatchesAt(h, KeyPattern(key))
    ensures ReplaceAll(x + h + y, KeyPattern(k), Hidden(k))
         == ReplaceAll(x, KeyPattern(k), Hidden(k)) + h + ReplaceAll(y, KeyPattern(k), Hidden(k))
  {
    var p := KeyPattern(k);
    KeyPatternFacts(k);
    KeyPatternFacts(key);
    MatchedImpOnlyAtStart(h, KeyPattern(key));
    assert AtomMatches(KeyPattern(key)[0], h[0]) && AtomMatches(KeyPattern(key)[1], h[1]);
    assert AtomMatches(KeyPattern(key)[2], h[2]) && AtomMatches(KeyPattern(key)[16], h[16]);
    MismatchAt(h, y, p, 16);
    PassToken(x, h, y, p, Hidden(k));
  }

  lemma {:induction false} RestoreHidden(x: string, key: string, y: string, ks: seq<string>)
    requires ValidKeys(ks) && key in ks
    ensures Restore(x + Hidden(key) + y, ks) == Restore(x, ks) + Exposed(key) + Restore(y, ks)
    decreases |ks|
  {
    var k := ks[0];
    var p := RestorePattern(k);
    KeysTail(ks);
    var x', y' := ReplaceAll(x, p, Exposed(k)), ReplaceAll(y, p, Exposed(k));
    if k == key {
      RestoreSame(x, key, y);
      ExposedSealedFromRestore(key, ks[1..]);
      RestoreSealed(x', Exposed(key), y', ks[1..]);
    } else {
      assert ks == [k] + ks[1..];
      RestoreOther(x, key, y, k);
      RestoreHidden(x', key, y', ks[1..]);
    }
  }

  /** The restore pass of a key turns its sentinel form back into `import.meta.env.KEY`. */
  lemma RestoreSame(x: string, key: string, y: string)
    requires ValidKey(key)
    ensures ReplaceAll(x + Hidden(key) + y, RestorePattern(key), Exposed(key))
         == ReplaceAll(x, RestorePattern(key), Exposed(key)) + Exposed(key) + ReplaceAll(y, RestorePattern(key), Exposed(key))
  {
    RestorePatternFacts(key);
    HiddenFacts(key);
    HitToken(x, Hidden(key), y, RestorePattern(key), Exposed(key));
  }

  /** The restore pass of one key leaves the sentinel form of another key alone. */
  lemma RestoreOther(x: string, key: string, y: string, k: string)
    requires ValidKey(key) && ValidKey(k) && key[0] != k[0]
    ensures ReplaceAll(x + Hidden(key) + y, RestorePattern(k), Exposed(k))
         == ReplaceAll(x, RestorePattern(k), Exposed(k)) + Hidden(key) + ReplaceAll(y, RestorePattern(k), Exposed(k))
  {
    RestorePatternFacts(k);
    HiddenFacts(key);
    SealedBy(Hidden(key), RestorePattern(k), 257);
  }

  /**
   * An `import.meta.env.KEY` for an inline key, with any single code unit
   * but a line terminator standing for each dot, comes out as
   * `import.meta.env.KEY`, and the text on either side is rewritten as if
   * it stood alone.
   */
  lemma KeyRefKept(x: string, h: string, key: string, y: string, out: string)
    requires key in InlineEnvKeys && |h| == |KeyPattern(key)| && MatchesAt(h, KeyPattern(key))
    ensures Rewrite(x + h + y, out) == Rewrite(x, out) + Exposed(key) + Rewrite(y, out)
  {
    InlineKeysValid();
    var px, py := Preserve(x, InlineEnvKeys), Preserve(y, InlineEnvKeys);
    PreserveKey(x, h, key, y, InlineEnvKeys);
    HiddenSealedFromEnvRef(key);
    assert ReplaceText(px + Hidden(key) + py, EnvRef, out)
        == ReplaceText(px, EnvRef, out) + Hidden(key) + ReplaceText(py, EnvRef, out);
    RestoreHidden(ReplaceText(px, EnvRef, out), key, ReplaceText(py, EnvRef, out), InlineEnvKeys);
  }

  // ----- any other `import.meta.env` is replaced -----

  /**
   * `y` cannot finish an `import.meta.env.KEY` for a key of `ks`: it is
   * empty, begins with a line terminator, or does not go on with a key
   * after its first character.
   */
  predicate NotKeyTail(y: string, ks: seq<string>) {
    y == [] || IsLineTerminator(y[0]) || forall k :: k in ks ==> !StartsWith(y[1..], k)
  }

  /** The text of `JSON.stringify(env)`, as far as the passes can tell. */
  predicate JsonOk(json: string) {
    && |json| >= 2 && json[0] == '{' && json[|json| - 1] == '}'
    && (json[1] == '"' || json[1] == '}')
    && !Contains(json, Unique())
  }

  /** What replaces `import.meta.env`: the sentinel in a build, the environment's JSON in development. */
  predicate OutOk(out: string) {
    out == Unique() || JsonOk(out)
  }

  /** A match of `s.KEY` at the head of `s + y` means `y` is a character and then `KEY`. */
  lemma DotKeyTail(s: string, y: string, k: string)
    requires ValidKey(k) && MatchesAt(s + y, Regex(s + "." + k))
    ensures |y| > |k| && !IsLineTerminator(y[0]) && StartsWith(y[1..], k)
  {
    var e := s + "." + k;
    RegexAt(e, |s|);
    assert AtomMatches(Regex(e)[|s|], (s + y)[|s|]);
    forall j | 0 <= j < |k|
      ensures y[1..][j] == k[j]
    {
      RegexAt(e, |s| + 1 + j);
      assert AtomMatches(Regex(e)[|s| + 1 + j], (s + y)[|s| + 1 + j]);
    }
  }

  /** A replace-all whose replacement begins with no key character does not make a key appear at the head. */
  lemma {:induction false} KeyPrefixKept(w: string, p: Pattern, r: string, k: string)
    requires |p| > 0 && |r| > 0 && !KeyChar(r[0]) && ValidKey(k) && !StartsWith(w, k)
    ensures !StartsWith(ReplaceAll(w, p, r), k)
    decreases |w|
  {
    if w == [] {
      ReplaceMatcherSound(p, r);
      assert ReplaceAll(w, p, r) == [];
    } else {
      ReplaceAllHead(w, p, r);
      if !MatchesAt(w, p) && w[0] == k[0] {
        StartsWithTail(w, k);
        if |k| > 1 {
          KeyPrefixKept(w[1..], p, r, k[1..]);
        }
      }
    }
  }

  /** Past a common first character, `w` starts with `k` exactly when its rest starts with the rest of `k`. */
  lemma StartsWithTail(w: string, k: string)
    requires w != [] && k != [] && w[0] == k[0]
    ensures StartsWith(w, k) <==> StartsWith(w[1..], k[1..])
  {
    if |k| <= |w| {
      assert w[..|k|] == [w[0]] + w[1..][..|k| - 1];
      assert k == [k[0]] + k[1..];
    }
  }

  /** One step of a replace-all. */
  lemma ReplaceAllHead(z: string, p: Pattern, r: string)
    requires |p| > 0 && z != []
    ensures ReplaceAll(z, p, r)
         == if MatchesAt(z, p) then r + ReplaceAll(z[|p|..], p, r) else [z[0]] + ReplaceAll(z[1..], p, r)
  {
    ReplaceMatcherSound(p, r);
  }

  /** The passes keep a text from finishing a key reference. */
  lemma TailKept(z: string, p: Pattern, r: string, ks: seq<string>)
    requires |p| > 0 && |r| >= 2 && !KeyChar(r[0]) && !KeyChar(r[1])
    requires (forall k :: k in ks ==> ValidKey(k)) && NotKeyTail(z, ks)
    ensures NotKeyTail(ReplaceAll(z, p, r), ks)
  {
    var o := ReplaceAll(z, p, r);
    if z == [] {
      ReplaceMatcherSound(p, r);
      assert o == [];
    } else {
      ReplaceAllHead(z, p, r);
      if MatchesAt(z, p) {
        forall k | k in ks
          ensures !StartsWith(o[1..], k)
        {
          assert o[1..][0] == r[1];
        }
      } else if !IsLineTerminator(z[0]) {
        forall k | k in ks
          ensures !StartsWith(o[1..], k)
        {
          KeyPrefixKept(z[1..], p, r, k);
          assert o[1..] == ReplaceAll(z[1..], p, r);
        }
      }
    }
  }

  lemma {:induction false} PreserveEnv(x: string, y: string, ks: seq<string>, all: seq<string>)
    requires ValidKeys(all) && (forall k :: k in ks ==> k in all) && NotKeyTail(y, all)
    ensures Preserve(x + EnvRef + y, ks) == Preserve(x, ks) + EnvRef + Preserve(y, ks)
    ensures NotKeyTail(Preserve(y, ks), all)
    decreases |ks|
  {
    if ks != [] {
      var k := ks[0];
      var p := KeyPattern(k);
      KeyPatternFacts(k);
      EnvRefFacts();
      HiddenFacts(k);
      if MatchesAt(EnvRef + y, p) {
        DotKeyTail(EnvRef, y, k);
        assert false;
      }
      PassToken(x, EnvRef, y, p, Hidden(k));
      TailKept(y, p, Hidden(k), all);
      PreserveEnv(ReplaceAll(x, p, Hidden(k)), ReplaceAll(y, p, Hidden(k)), ks[1..], all);
    }
  }

  /** The JSON text holds no start of a sentinel that could reach a restore pattern's match. */
  lemma JsonNoBegin(json: string, k: string)
    requires JsonOk(json) && ValidKey(k)
    ensures forall i :: 1 <= i < |json| ==> !Begins(json[i..], RestorePattern(k))
  {
    var p := RestorePattern(k);
    RestorePatternFacts(k);
    forall i | 1 <= i < |json|
      ensures !Begins(json[i..], p)
    {
      var n := |json| - i;
      if n >= 256 {
        assert !OccursAt(json, Unique(), i);
        var j :| 0 <= j < 256 && json[i..i + 256][j] != Unique()[j];
        assert json[i..][j] == json[i..i + 256][j];
        assert !AtomMatches(p[j], json[i..][j]);
      } else {
        UniqueAt(n - 1);
        assert json[i..][n - 1] == '}';
        assert !AtomMatches(p[n - 1], json[i..][n - 1]);
      }
    }
  }

  /** A replace-all of a restore pattern splits where the replacement of `import.meta.env` begins. */
  lemma OutSplit(x: string, out: string, y: string, k: string, r: string)
    requires OutOk(out) && ValidKey(k)
    ensures ReplaceAll(x + out + y, RestorePattern(k), r)
         == ReplaceAll(x, RestorePattern(k), r) + ReplaceAll(out + y, RestorePattern(k), r)
  {
    var p := RestorePattern(k);
    RestorePatternFacts(k);
    assert x + out + y == x + (out + y);
    if out == Unique() {
      UniqueFacts();
      assert (out + y)[..3] == out[..3];
      ImpSplit(x, out + y, p, r);
    } else {
      var b := out + y;
      forall j | 1 <= j < |p|
        ensures !MatchesAt(b, p[j..])
      {
        if j != 256 {
          if j < 256 {
            UniqueAt(j);
          }
          assert !AtomMatches(p[j..][0], b[0]);
        } else {
          assert !AtomMatches(p[j..][1], b[1]);
        }
      }
      SplitAt(x, b, p, r);
    }
  }

  /** One restore pass goes round the replacement of `import.meta.env`. */
  /** What the restore pass needs of its pattern and of its replacement. */
  lemma RestoreEnds(k: string)
    requires ValidKey(k)
    ensures |RestorePattern(k)| > 0
    ensures |Exposed(k)| >= 2 && !KeyChar(Exposed(k)[0]) && !KeyChar(Exposed(k)[1])
  {
    RestorePatternFacts(k);
    ExposedFacts(k);
  }

  lemma RestorePassOut(x: string, out: string, y: string, k: string, all: seq<string>)
    requires OutOk(out) && ValidKeys(all) && k in all && NotKeyTail(y, all)
    ensures ReplaceAll(x + out + y, RestorePattern(k), Exposed(k))
         == ReplaceAll(x, RestorePattern(k), Exposed(k)) + out + ReplaceAll(y, RestorePattern(k), Exposed(k))
    ensures NotKeyTail(ReplaceAll(y, RestorePattern(k), Exposed(k)), all)
  {
    var p := RestorePattern(k);
    var r := Exposed(k);
    assert ValidKey(k);
    RestoreEnds(k);
    OutSplit(x, out, y, k, r);
    OutPass(out, y, k, all);
    PassOver(out, y, p, r);
    TailKept(y, p, r, all);
  }

  /** The replacement of `import.meta.env` is no match of a restore pattern, nor the start of one. */
  lemma OutPass(out: string, y: string, k: string, all: seq<string>)
    requires OutOk(out) && ValidKeys(all) && k in all && NotKeyTail(y, all)
    ensures !MatchesAt(out + y, RestorePattern(k))
    ensures forall i :: 1 <= i < |out| ==> !Begins(out[i..], RestorePattern(k))
  {
    var p := RestorePattern(k);
    RestorePatternFacts(k);
    if out == Unique() {
      UniqueFacts();
      if MatchesAt(out + y, p) {
        DotKeyTail(Unique(), y, k);
        assert false;
      }
      NoBeginInside(out, p);
    } else {
      MismatchAt(out, y, p, 0);
      JsonNoBegin(out, k);
    }
  }

  lemma {:induction false} RestoreOut(x: string, out: string, y: string, ks: seq<string>, all: seq<string>)
    requires OutOk(out) && ValidKeys(all) && (forall k :: k in ks ==> k in all) && NotKeyTail(y, all)
    ensures Restore(x + out + y, ks) == Restore(x, ks) + out + Restore(y, ks)
    decreases |ks|
  {
    if ks != [] {
      var k := ks[0];
      RestorePassOut(x, out, y, k, all);
      var p := RestorePattern(k);
      RestoreOut(ReplaceAll(x, p, Exposed(k)), out, ReplaceAll(y, p, Exposed(k)), ks[1..], all);
    }
  }

  /**
   * An `import.meta.env` that does not start a reference to an inline key
   * becomes `out`, and the text on either side is rewritten as if it stood
   * alone.
   */
  lemma EnvRefReplaced(x: string, y: string, out: string)
    requires OutOk(out) && NotKeyTail(y, InlineEnvKeys)
    ensures Rewrite(x + EnvRef + y, out) == Rewrite(x, out) + out + Rewrite(y, out)
  {
    InlineKeysValid();
    var keys := InlineEnvKeys;
    var px, py := Preserve(x, keys), Preserve(y, keys);
    PreserveEnv(x, y, keys, keys);
    ReplaceEnvRef(px, py, out, keys);
    RestoreOut(ReplaceText(px, EnvRef, out), out, ReplaceText(py, EnvRef, out), keys, keys);
  }

  /** The replacement pass itself: the `import.meta.env` becomes `out`. */
  lemma ReplaceEnvRef(x: string, y: string, out: string, all: seq<string>)
    requires OutOk(out) && ValidKeys(all) && NotKeyTail(y, all)
    ensures ReplaceText(x + EnvRef + y, EnvRef, out) == ReplaceText(x, EnvRef, out) + out + ReplaceText(y, EnvRef, out)
    ensures NotKeyTail(ReplaceText(y, EnvRef, out), all)
  {
    EnvPatternFacts();
    EnvRefFacts();
    HitToken(x, EnvRef, y, Literal(EnvRef), out);
    UniqueLetters();
    TailKept(y, Literal(EnvRef), out, all);
  }

  // ----- text no pattern can match -----

  /**
   * No pass can match anywhere in `t`: no `import.meta.env` with any
   * characters for its dots, and no sentinel.
   */
  ghost predicate Inert(t: string) {
    forall i :: 0 <= i < |t| ==> !MatchesAt(t[i..], Regex(EnvRef)) && !StartsWith(t[i..], Unique())
  }

  /** A text without the letter `i` is inert. */
  lemma NoIInert(t: string)
    requires 'i' !in t
    ensures Inert(t)
  {
    UniqueLetters();
    forall i | 0 <= i < |t|
      ensures !MatchesAt(t[i..], Regex(EnvRef)) && !StartsWith(t[i..], Unique())
    {
      assert t[i..][0] == t[i];
    }
  }

  lemma InertPatterns(t: string, k: string, i: nat)
    requires Inert(t) && ValidKey(k) && i < |t|
    ensures !MatchesAt(t[i..], KeyPattern(k))
    ensures !MatchesAt(t[i..], Literal(EnvRef))
    ensures !MatchesAt(t[i..], RestorePattern(k))
  {
    var u := t[i..];
    KeyPatternFacts(k);
    RestorePatternFacts(k);
    EnvPatternFacts();
    assert !MatchesAt(u, Regex(EnvRef)) && !StartsWith(u, Unique());
    if MatchesAt(u, KeyPattern(k)) {
      assert false;
    }
    if MatchesAt(u, Literal(EnvRef)) {
      assert false;
    }
    if MatchesAt(u, RestorePattern(k)) {
      assert false;
    }
  }

  lemma {:induction false} PreserveInert(t: string, ks: seq<string>)
    requires Inert(t) && forall k :: k in ks ==> ValidKey(k)
    ensures Preserve(t, ks) == t
    decreases |ks|
  {
    if ks != [] {
      var k := ks[0];
      KeyPatternFacts(k);
      forall i | 0 <= i < |t|
        ensures !MatchesAt(t[i..], KeyPattern(k))
      {
        InertPatterns(t, k, i);
      }
      NoHitsUnchanged(t, KeyPattern(k), Hidden(k));
      PreserveInert(t, ks[1..]);
    }
  }

  lemma {:induction false} RestoreInert(t: string, ks: seq<string>)
    requires Inert(t) && forall k :: k in ks ==> ValidKey(k)
    ensures Restore(t, ks) == t
    decreases |ks|
  {
    if ks != [] {
      var k := ks[0];
      RestorePatternFacts(k);
      forall i | 0 <= i < |t|
        ensures !MatchesAt(t[i..], RestorePattern(k))
      {
        InertPatterns(t, k, i);
      }
      NoHitsUnchanged(t, RestorePattern(k), Exposed(k));
      RestoreInert(t, ks[1..]);
    }
  }

  /** A text in which no pass can match is left as it is. */
  lemma InertUnchanged(t: string, out: string)
    requires Inert(t)
    ensures Rewrite(t, out) == t
  {
    InlineKeysValid();
    PreserveInert(t, InlineEnvKeys);
    EnvPatternFacts();
    forall i | 0 <= i < |t|
      ensures !MatchesAt(t[i..], Literal(EnvRef))
    {
      InertPatterns(t, "MODE", i);
    }
    NoHitsUnchanged(t, Literal(EnvRef), out);
    RestoreInert(t, InlineEnvKeys);
  }

  // ----- texts sealed against every pass -----

  /** A text every pass goes round is kept, and the rewrite splits at both its ends. */
  lemma SealedRewrite(x: string, t: string, y: string, out: string)
    requires Sealed(t, Literal(EnvRef))
    requires forall k :: k in InlineEnvKeys ==> Sealed(t, KeyPattern(k)) && Sealed(t, RestorePattern(k))
    ensures Rewrite(x + t + y, out) == Rewrite(x, out) + t + Rewrite(y, out)
  {
    var keys := InlineEnvKeys;
    PreserveSealed(x, t, y, keys);
    var px, py := Preserve(x, keys), Preserve(y, keys);
    assert ReplaceText(px + t + py, EnvRef, out) == ReplaceText(px, EnvRef, out) + t + ReplaceText(py, EnvRef, out);
    RestoreSealed(ReplaceText(px, EnvRef, out), t, ReplaceText(py, EnvRef, out), keys);
  }

  /** A line terminator is sealed against a pattern none of whose atoms matches it. */
  lemma LineSealed(c: char, p: Pattern)
    requires IsLineTerminator(c) && |p| > 0 && LineFree(p)
    ensures Sealed([c], p)
  {
    forall x, y, r
      ensures ReplaceAll(x + [c] + y, p, r) == ReplaceAll(x, p, r) + [c] + ReplaceAll(y, p, r)
    {
      var b := [c] + y;
      forall k | 1 <= k < |p|
        ensures !MatchesAt(b, p[k..])
      {
        assert !AtomMatches(p[k..][0], b[0]);
      }
      SplitAt(x, b, p, r);
      assert !AtomMatches(p[0], b[0]);
      PassOver([c], y, p, r);
      assert x + [c] + y == x + b;
    }
  }

  /** No pattern spans a line terminator: the rewrite works line by line. */
  lemma LineSplit(a: string, c: char, b: string, out: string)
    requires IsLineTerminator(c)
    ensures Rewrite(a + [c] + b, out) == Rewrite(a, out) + [c] + Rewrite(b, out)
  {
    EnvPatternFacts();
    LineSealed(c, Literal(EnvRef));
    InlineKeysValid();
    forall k | k in InlineEnvKeys
      ensures Sealed([c], KeyPattern(k)) && Sealed([c], RestorePattern(k))
    {
      KeyPatternFacts(k);
      RestorePatternFacts(k);
      LineSealed(c, KeyPattern(k));
      LineSealed(c, RestorePattern(k));
    }
    SealedRewrite(a, [c], b, out);
  }

  /**
   * Three `imp`-led stretches in a row, each failing the pattern at the
   * given index (the first one may fail it past its own end).
   */
  lemma ThreeSealed(a: string, b: string, c: string, p: Pattern, ja: nat, jb: nat, jc: nat)
    requires LeadsImp(p) && ImpFree(p)
    requires StartsWith(a, "imp") && ImpOnlyAtStart(a)
    requires StartsWith(b, "imp") && ImpOnlyAtStart(b)
    requires StartsWith(c, "imp") && ImpOnlyAtStart(c)
    requires ja < |a + b| && ja < |p| && !AtomMatches(p[ja], (a + b)[ja])
    requires jb < |b| && jb < |p| && !AtomMatches(p[jb], b[jb])
    requires jc < |c| && jc < |p| && !AtomMatches(p[jc], c[jc])
    ensures Sealed(a + b + c, p)
  {
    forall x, y, r
      ensures ReplaceAll(x + (a + b + c) + y, p, r) == ReplaceAll(x, p, r) + (a + b + c) + ReplaceAll(y, p, r)
    {
      ThreeSealedIn(x, y, r, a, b, c, p, ja, jb, jc);
    }
  }

  lemma ThreeSealedIn(x: string, y: string, r: string, a: string, b: string, c: string, p: Pattern, ja: nat, jb: nat, jc: nat)
    requires LeadsImp(p) && ImpFree(p)
    requires StartsWith(a, "imp") && ImpOnlyAtStart(a)
    requires StartsWith(b, "imp") && ImpOnlyAtStart(b)
    requires StartsWith(c, "imp") && ImpOnlyAtStart(c)
    requires ja < |a + b| && ja < |p| && !AtomMatches(p[ja], (a + b)[ja])
    requires jb < |b| && jb < |p| && !AtomMatches(p[jb], b[jb])
    requires jc < |c| && jc < |p| && !AtomMatches(p[jc], c[jc])
    ensures ReplaceAll(x + (a + b + c) + y, p, r) == ReplaceAll(x, p, r) + (a + b + c) + ReplaceAll(y, p, r)
  {
    var u := c + y;
    var v := b + u;
    MismatchAt(c, y, p, jc);
    PassHead(c, y, p, r);
    MismatchAt(b, u, p, jb);
    PassHead(b, u, p, r);
    MismatchAt(a + b, u, p, ja);
    JoinThree(x, a, b, c, y);
    PassToken(x, a, v, p, r);
    JoinThree(ReplaceAll(x, p, r), a, b, c, ReplaceAll(y, p, r));
  }

  /** A token no match can start in passes unchanged at the head of the text. */
  lemma PassHead(t: string, y: string, p: Pattern, r: string)
    requires LeadsImp(p) && ImpFree(p) && StartsWith(t, "imp") && ImpOnlyAtStart(t)
    requires !MatchesAt(t + y, p)
    ensures ReplaceAll(t + y, p, r) == t + ReplaceAll(y, p, r)
  {
    PassToken([], t, y, p, r);
    assert [] + t + y == t + y;
    ReplaceMatcherSound(p, r);
    assert ReplaceAll([], p, r) == [];
  }

  lemma JoinThree(x: string, a: string, b: string, c: string, y: string)
    ensures x + (a + b + c) + y == x + a + (b + (c + y))
    ensures a + b + (c + y) == a + (b + (c + y))
  {
  }


  /** The import statement in three `imp`-led stretches, and the letters the patterns fail on. */
  lemma ImportParts()
    ensures ImportStatement() == "import " + (Unique() + " from '") + "import-meta-env';"
    ensures StartsWith(Unique() + " from '", "imp") && ImpOnlyAtStart(Unique() + " from '")
    ensures ("import " + (Unique() + " from '"))[7] == 'i'
    ensures (Unique() + " from '")[6] == '_' && (Unique() + " from '")[16] == 'u'
    ensures (Unique() + " from '")[257] == 'f'
  {
    var b := Unique() + " from '";
    UniqueLetters();
    forall i | 1 <= i < |b|
      ensures !ImpAt(b, i)
    {
      if i < 256 {
        UniqueAt(i);
        if i + 1 < 256 {
          UniqueAt(i + 1);
        }
      }
    }
  }

  lemma ImportSealedBy(k: string)
    requires ValidKey(k)
    ensures Sealed(ImportStatement(), KeyPattern(k)) && Sealed(ImportStatement(), RestorePattern(k))
  {
    ImportParts();
    KeyPatternFacts(k);
    RestorePatternFacts(k);
    UniqueLetters();
    var b := Unique() + " from '";
    ExposedAt(k, 7);
    RegexAt(Exposed(k), 7);
    ThreeSealed("import ", b, "import-meta-env';", KeyPattern(k), 7, 16, 16);
    ThreeSealed("import ", b, "import-meta-env';", RestorePattern(k), 6, 257, 6);
  }

  /** The import statement a build adds is never rewritten, and the rewrite splits round it. */
  lemma ImportSealed(x: string, y: string, out: string)
    ensures Rewrite(x + ImportStatement() + y, out) == Rewrite(x, out) + ImportStatement() + Rewrite(y, out)
  {
    ImportParts();
    EnvPatternFacts();
    UniqueLetters();
    ThreeSealed("import ", Unique() + " from '", "import-meta-env';", Literal(EnvRef), 6, 6, 6);
    InlineKeysValid();
    forall k | k in InlineEnvKeys
      ensures Sealed(ImportStatement(), KeyPattern(k)) && Sealed(ImportStatement(), RestorePattern(k))
    {
      ImportSealedBy(k);
    }
    SealedRewrite(x, ImportStatement(), y, out);
  }

  // ----- the production transform -----

  lemma JsVueExclusive(id: string)
    ensures !(IsTransformingJs(id) && IsTransformingVue(id))
  {
    if IsTransformingVue(id) {
      var e := id[|id| - 1];
      assert id[|id| - 4..][3] == e;
      assert |id| >= 3 ==> id[|id| - 3..][2] == e;
      assert id[|id| - 4..][3] == e;
    }
  }

  /** A TypeScript module is transformed as script. */
  lemma ScriptId()
    ensures IsTransformingJs("src/main.ts") && !IsTransformingVue("src/main.ts")
  {
    assert "src/main.ts"[11 - 3..] == ".ts";
    assert "src/main.ts"[11 - 4..][1] != ".vue"[1];
    LacksChar("src/main.ts", "?vue&type=template", '?');
  }

  /** A Vue template compiled to script is never transformed as script, whatever its id ends in. */
  lemma TemplateId(a: string, rest: string)
    ensures !IsTransformingJs(a + "?vue&type=template" + rest)
  {
    var q := "?vue&type=template";
    var t := a + q + rest;
    assert t[|a|..|a| + |q|] == q;
    assert OccursAt(t, q, |a|);
  }

  /** The text after a line terminator is rewritten on its own. */
  lemma AfterLine(c: char, b: string, out: string)
    requires IsLineTerminator(c)
    ensures Rewrite([c] + b, out) == [c] + Rewrite(b, out)
  {
    NoIInert([]);
    InertUnchanged([], out);
    LineSplit([], c, b, out);
    EmptyHead([c], b, Rewrite(b, out));
  }

  lemma EmptyHead(t: string, b: string, r: string)
    ensures [] + t + b == t + b && [] + t + r == t + r
  {
  }

  /** The text after the import statement is rewritten on its own. */
  lemma AfterImport(b: string, out: string)
    ensures Rewrite(ImportStatement() + b, out) == ImportStatement() + Rewrite(b, out)
  {
    NoIInert([]);
    InertUnchanged([], out);
    ImportSealed([], b, out);
    EmptyHead(ImportStatement(), b, Rewrite(b, out));
  }

  lemma LineJoin(s: string, b: string, r: string)
    ensures s + "\n" + b == s + ("\n" + b) && s + ("\n" + r) == s + "\n" + r
  {
  }

  /** What a rewrite keeps in front, it keeps in front of a line break as well. */
  lemma KeptBeforeLine(s: string, body: string, out: string)
    requires Rewrite(s + ("\n" + body), out) == s + Rewrite("\n" + body, out)
    ensures Rewrite(s + "\n" + body, out) == s + "\n" + Rewrite(body, out)
  {
    AfterLine('\n', body, out);
    LineJoin(s, body, Rewrite(body, out));
  }

  /** The import line in front of a module is left alone by the rewrite. */
  lemma PrependRewrite(body: string, out: string)
    ensures Rewrite(ImportLine() + body, out) == ImportLine() + Rewrite(body, out)
  {
    AfterImport("\n" + body, out);
    KeptBeforeLine(ImportStatement(), body, out);
  }

  /**
   * A script module comes out as the import line followed by the rewrite
   * of its code, the first copy of the import line it held taken out.
   */
  lemma ProdJsResult(code: string, id: string)
    requires !Excluded(id) && IsTransformingJs(id)
    ensures ProdTransform(code, id) == ImportLine() + Rewrite(ReplaceFirst(code, ImportLine(), ""), Unique())
  {
    PrependRewrite(ReplaceFirst(code, ImportLine(), ""), Unique());
  }

  /** The import line inserted after a `<script>` tag is left alone by the rewrite. */
  lemma ImportJoin(a: string, s: string, b: string, ra: string, rb: string)
    ensures a + "\n" + s + b == a + ['\n'] + (s + b)
    ensures ra + ['\n'] + (s + rb) == ra + "\n" + s + rb
  {
  }

  lemma InsertRewrite(a: string, b: string, out: string)
    ensures Rewrite(a + "\n" + ImportStatement() + b, out)
         == Rewrite(a, out) + "\n" + ImportStatement() + Rewrite(b, out)
  {
    var s := ImportStatement();
    LineSplit(a, '\n', s + b, out);
    AfterImport(b, out);
    ImportJoin(a, s, b, Rewrite(a, out), Rewrite(b, out));
  }

  lemma VueInject(code: string, id: string)
    requires IsTransformingVue(id)
    ensures Inject(code, id) == VueInsert(code)
  {
    JsVueExclusive(id);
  }

  /**
   * A Vue component gets the import on a line of its own after the first
   * `<script …>` tag, and the text on either side is rewritten apart.
   */
  lemma ProdVueResult(code: string, id: string, i: nat, j: nat)
    requires !Excluded(id) && IsTransformingVue(id) && ScriptTag(code, 0) == Some((i, j))
    ensures j < |code|
    ensures ProdTransform(code, id)
         == Rewrite(code[..j + 1], Unique()) + "\n" + ImportStatement() + Rewrite(code[j + 1..], Unique())
  {
    VueInject(code, id);
    AfterScriptTagAt(code, ImportStatement(), i, j);
    InsertRewrite(code[..j + 1], code[j + 1..], Unique());
  }

  /** A second transform of a script module does not add a second import line. */
  lemma PrependIdempotent(code: string)
    ensures PrependImport(PrependImport(code)) == PrependImport(code)
  {
    var s := PrependImport(code);
    var il := ImportLine();
    assert OccursAt(s, il, 0);
    assert ReplaceFirst(s, il, "") == s[|il|..];
    assert s == il + s[|il|..];
  }

  // ----- the HTML entry -----

  lemma SentinelAvoidsEnvRef()
    ensures Avoids(EnvRef, Unique())
  {
    var u := Unique();
    UniqueLetters();
    forall i | 0 <= i < 256
      ensures u[i] != '.'
    {
      UniqueAt(i);
    }
    assert EnvRef[6] !in u;
    forall n | 1 <= n < |u| && n <= |EnvRef|
      ensures u[|u| - n..] != EnvRef[..n]
    {
      UniqueAt(256 - n);
      assert u[|u| - n..][0] != EnvRef[..n][0];
    }
    forall n | 1 <= n < |u| && n <= |EnvRef|
      ensures u[..n] != EnvRef[|EnvRef| - n..]
    {
      if n < 15 {
        assert u[..n][0] != EnvRef[|EnvRef| - n..][0];
      } else {
        assert u[..n][6] != EnvRef[|EnvRef| - n..][6];
      }
    }
  }

  /** The page that `transformIndexHtml` returns holds no sentinel. */
  lemma HtmlRemovesSentinel(html: string)
    ensures !Contains(TransformIndexHtml(html), Unique())
  {
    SentinelAvoidsEnvRef();
    TextRemoved(html, Unique(), EnvRef);
  }

  /** No proper end of the sentinel is also a start of it. */
  lemma SentinelUnbordered()
    ensures Unbordered(Unique())
  {
    var u := Unique();
    UniqueLetters();
    forall j | 1 <= j < |u|
      ensures u[j..] != u[..|u| - j]
    {
      UniqueAt(j);
      if u[j] == 'i' {
        UniqueAt(j + 1);
        assert u[j..][1] != u[..|u| - j][1];
      } else {
        assert u[j..][0] != u[..|u| - j][0];
      }
    }
  }

  /**
   * `transformIndexHtml` undoes the replacement of `import.meta.env` by
   * the sentinel in any text that did not hold the sentinel already.
   */
  lemma HtmlRoundTrip(t: string)
    requires !Contains(t, Unique())
    ensures TransformIndexHtml(ReplaceText(t, EnvRef, Unique())) == t
  {
    SentinelUnbordered();
    ReplaceBack(t, EnvRef, Unique());
  }

  // ----- variables by name -----

  /**
   * `import.meta.env.NAME` for a name that begins with no inline key is
   * read from the replacement: `out` followed by `.NAME`.
   */
  lemma OtherKeyReplaced(x: string, name: string, out: string)
    requires OutOk(out) && Inert("." + name)
    requires forall k :: k in InlineEnvKeys ==> !StartsWith(name, k)
    ensures Rewrite(x + Exposed(name), out) == Rewrite(x, out) + out + "." + name
  {
    var y := "." + name;
    DotName(name);
    EnvRefReplaced(x, y, out);
    InertUnchanged(y, out);
    Associate(EnvRef, ".", name);
    Associate(x, EnvRef, y);
    Associate(Rewrite(x, out) + out, ".", name);
  }

  lemma Associate(a: string, b: string, c: string)
    ensures a + b + c == a + (b + c)
  {
  }

  lemma DotName(name: string)
    requires forall k :: k in InlineEnvKeys ==> !StartsWith(name, k)
    ensures NotKeyTail("." + name, InlineEnvKeys)
  {
    var y := "." + name;
    assert y[1..] == name;
  }

  /**
   * A name that begins with an inline key is taken for that key and left
   * in place whatever follows it: `import.meta.env.DEVICE` is kept as
   * `DEV` followed by `ICE`.
   */
  lemma LongerKeyKept(x: string, key: string, rest: string, out: string)
    requires key in InlineEnvKeys && Inert(rest)
    ensures Rewrite(x + Exposed(key) + rest, out) == Rewrite(x, out) + Exposed(key) + rest
  {
    InlineKeysValid();
    ExposedFacts(key);
    KeyRefKept(x, Exposed(key), key, rest, out);
    InertUnchanged(rest, out);
  }

  // ----- the unescaped dots of the key patterns -----

  lemma WildcardMatch(h: string)
    requires h == "import_meta_env_MODE"
    ensures |h| == |KeyPattern("MODE")| && MatchesAt(h, KeyPattern("MODE"))
  {
    InlineKeysValid();
    KeyPatternFacts("MODE");
    forall j | 0 <= j < |h|
      ensures AtomMatches(KeyPattern("MODE")[j], h[j])
    {
      ExposedAt("MODE", j);
      RegexAt(Exposed("MODE"), j);
      if j < 16 {
        EnvDotAt(j);
      }
    }
  }

  /**
   * A `.` of a key pattern takes one UTF-16 code unit, so a character
   * outside the Basic Multilingual Plane in its place is not matched:
   * `import😀meta😀env😀MODE` is no `import.meta.env.MODE`.
   */
  lemma AstralNotWildcard(h: string)
    requires h == "import\U{1F600}meta\U{1F600}env\U{1F600}MODE"
    ensures !MatchesAt(h, KeyPattern("MODE"))
  {
    ExposedAt("MODE", 6);
    EnvDotAt(6);
    RegexAt(Exposed("MODE"), 6);
    assert KeyPattern("MODE")[6] == AnyChar;
    assert !IsSingleUnit(h[6]);
  }

  /**
   * As written: the key patterns take `.` for any code unit, so a text
   * with no `import.meta.env` and no sentinel in it is still rewritten:
   * `import_meta_env_MODE` comes out as `import.meta.env.MODE`.
   */
  lemma WildcardDots(x: string, h: string, y: string, out: string)
    requires h == "import_meta_env_MODE"
    ensures !Contains(h, EnvRef) && !Contains(h, Unique())
    ensures Rewrite(x + h + y, out) == Rewrite(x, out) + Exposed("MODE") + Rewrite(y, out)
    ensures h != Exposed("MODE")
  {
    WildcardMatch(h);
    KeyRefKept(x, h, "MODE", y, out);
    WildcardAbsent(h);
  }

  lemma WildcardAbsent(h: string)
    requires h == "import_meta_env_MODE"
    ensures !Contains(h, EnvRef) && !Contains(h, Unique())
    ensures h != Exposed("MODE")
  {
    assert EnvRef[6] == '.' && h[6] != '.';
    LacksChar(h, EnvRef, '.');
  }

  /** The key passes with the dots escaped, as `/import\.meta\.env/g` is. */
  function FixedPreserve(code: string, keys: seq<string>): string
    decreases |keys|
  {
    if keys == [] then code
    else FixedPreserve(ReplaceText(code, Exposed(keys[0]), Hidden(keys[0])), keys[1..])
  }

  function FixedRestore(code: string, keys: seq<string>): string
    decreases |keys|
  {
    if keys == [] then code
    else FixedRestore(ReplaceText(code, Hidden(keys[0]), Exposed(keys[0])), keys[1..])
  }

  function FixedRewrite(code: string, out: string): string {
    FixedRestore(ReplaceText(FixedPreserve(code, InlineEnvKeys), EnvRef, out), InlineEnvKeys)
  }

  /** A text that holds `p` holds every start of `p`. */
  lemma LongerAbsent(t: string, q: string, p: string)
    requires StartsWith(p, q) && !Contains(t, q)
    ensures !Contains(t, p)
  {
    forall i | 0 <= i <= |t| - |p|
      ensures !OccursAt(t, p, i)
    {
      assert t[i..i + |p|][..|q|] == t[i..i + |q|];
      assert !OccursAt(t, q, i);
    }
  }

  lemma {:induction false} FixedPreserveAbsent(t: string, ks: seq<string>)
    requires !Contains(t, EnvRef)
    ensures FixedPreserve(t, ks) == t
    decreases |ks|
  {
    if ks != [] {
      var k := ks[0];
      assert Exposed(k) == EnvRef + ("." + k);
      LongerAbsent(t, EnvRef, Exposed(k));
      TextUnchanged(t, Exposed(k), Hidden(k));
      FixedPreserveAbsent(t, ks[1..]);
    }
  }

  lemma {:induction false} FixedRestoreAbsent(t: string, ks: seq<string>)
    requires !Contains(t, Unique())
    ensures FixedRestore(t, ks) == t
    decreases |ks|
  {
    if ks != [] {
      var k := ks[0];
      assert Hidden(k) == Unique() + ("." + k);
      LongerAbsent(t, Unique(), Hidden(k));
      TextUnchanged(t, Hidden(k), Exposed(k));
      FixedRestoreAbsent(t, ks[1..]);
    }
  }

  /** Corrected: a text with no `import.meta.env` and no sentinel in it is left as it is. */
  lemma FixedUnchanged(t: string, out: string)
    requires !Contains(t, EnvRef) && !Contains(t, Unique())
    ensures FixedRewrite(t, out) == t
  {
    FixedPreserveAbsent(t, InlineEnvKeys);
    TextUnchanged(t, EnvRef, out);
    FixedRestoreAbsent(t, InlineEnvKeys);
  }
}
