/**
 * Leftmost, non-overlapping, left-to-right rewriting of a text.
 *
 * This is the search discipline shared by Rust `str::replace`, Rust
 * `Regex::replace_all` and JavaScript `String.prototype.replace` with a
 * global pattern: try to match at the current position; on a match emit the
 * replacement and resume after the matched text, otherwise copy one
 * character and try again one position further on.
 */
module Scanner {
  import opened Wrappers
  import opened Strings

  /** A match at the head of the remaining text: its length and what replaces it. */
  datatype Hit = Hit(len: nat, out: string)

  /** Decides whether a match starts at the head of the given text. */
  type Matcher = string -> Option<Hit>

  /** Every match consumes at least one character and no more than is there. */
  ghost predicate Sound(m: Matcher) {
    forall t :: m(t).Some? ==> 1 <= m(t).value.len <= |t|
  }

  function Scan(s: string, m: Matcher): string
    requires Sound(m)
    decreases |s|
  {
    if s == [] then []
    else match m(s)
      case Some(h) => h.out + Scan(s[h.len..], m)
      case None => [s[0]] + Scan(s[1..], m)
  }

  /** A text in which no match starts anywhere is left as it is. */
  lemma {:induction false} ScanNoHits(s: string, m: Matcher)
    requires Sound(m)
    requires forall i :: 0 <= i < |s| ==> m(s[i..]).None?
    ensures Scan(s, m) == s
    decreases |s|
  {
    if s != [] {
      assert s[0..] == s;
      forall i | 0 <= i < |s[1..]|
        ensures m(s[1..][i..]).None?
      {
        assert s[1..][i..] == s[i + 1..];
      }
      ScanNoHits(s[1..], m);
    }
  }

  /** A leading stretch `t` in which no match starts is copied through unchanged. */
  lemma {:induction false} ScanSkip(t: string, c: string, m: Matcher)
    requires Sound(m)
    requires forall i :: 0 <= i < |t| ==> m((t + c)[i..]).None?
    ensures Scan(t + c, m) == t + Scan(c, m)
    decreases |t|
  {
    if t == [] {
      assert t + c == c;
    } else {
      assert (t + c)[0..] == t + c;
      assert (t + c)[1..] == t[1..] + c;
      forall i | 0 <= i < |t[1..]|
        ensures m((t[1..] + c)[i..]).None?
      {
        assert (t[1..] + c)[i..] == (t + c)[i + 1..];
      }
      ScanSkip(t[1..], c, m);
    }
  }

  /**
   * Matches that start in `a` do not depend on what follows `a` and end
   * inside `a`, so the scan of `a + b` reaches the start of `b` exactly.
   */
  ghost predicate LocalTo(m: Matcher, a: string, b: string) {
    forall i :: 0 <= i < |a| ==>
      m((a + b)[i..]) == m(a[i..]) && (m(a[i..]).Some? ==> i + m(a[i..]).value.len <= |a|)
  }

  lemma LocalSuffix(m: Matcher, a: string, b: string, k: nat)
    requires k <= |a| && LocalTo(m, a, b)
    ensures LocalTo(m, a[k..], b)
  {
    forall i | 0 <= i < |a[k..]|
      ensures m((a[k..] + b)[i..]) == m(a[k..][i..])
      ensures m(a[k..][i..]).Some? ==> i + m(a[k..][i..]).value.len <= |a[k..]|
    {
      assert (a[k..] + b)[i..] == (a + b)[k + i..];
      assert a[k..][i..] == a[k + i..];
    }
  }

  /** Scanning distributes over a concatenation that no match straddles. */
  lemma {:induction false} ScanAppend(a: string, b: string, m: Matcher)
    requires Sound(m) && LocalTo(m, a, b)
    ensures Scan(a + b, m) == Scan(a, m) + Scan(b, m)
    decreases |a|
  {
    if a == [] {
      assert a + b == b;
    } else {
      assert (a + b)[0..] == a + b;
      assert a[0..] == a;
      match m(a)
      case Some(h) =>
        assert (a + b)[h.len..] == a[h.len..] + b;
        LocalSuffix(m, a, b, h.len);
        ScanAppend(a[h.len..], b, m);
      case None =>
        assert (a + b)[1..] == a[1..] + b;
        LocalSuffix(m, a, b, 1);
        ScanAppend(a[1..], b, m);
    }
  }

  /** The scan of `t` has a match of `t` starting at output index `h`, emitted there. */
  ghost predicate HitAt(t: string, m: Matcher, h: nat)
    requires Sound(m)
  {
    && h < |t|
    && m(t[h..]).Some?
    && h <= |Scan(t, m)|
    && Scan(t, m)[h..] == m(t[h..]).value.out + Scan(t[h + m(t[h..]).value.len..], m)
  }

  /**
   * Up to the first emitted replacement the output copies the input: any
   * prefix of the output either is a prefix of the input or reaches a
   * replacement.
   */
  lemma {:induction false} ScanPrefix(t: string, m: Matcher, n: nat)
    requires Sound(m) && n <= |Scan(t, m)|
    ensures (n <= |t| && Scan(t, m)[..n] == t[..n]) || exists h :: 0 <= h < n && HitAt(t, m, h)
    decreases |t|
  {
    if t != [] && n != 0 {
      assert t[0..] == t;
      if m(t).Some? {
        assert HitAt(t, m, 0);
      } else {
        ScanPrefix(t[1..], m, n - 1);
        if n - 1 <= |t[1..]| && Scan(t[1..], m)[..n - 1] == t[1..][..n - 1] {
          CopyShift(t, m, n);
        } else {
          var h :| 0 <= h < n - 1 && HitAt(t[1..], m, h);
          HitShift(t, m, h);
        }
      }
    }
  }

  /** A character the matcher passes over moves a copied prefix of the output one place on. */
  lemma CopyShift(t: string, m: Matcher, n: nat)
    requires Sound(m) && t != [] && m(t).None? && 1 <= n <= |t|
    requires n - 1 <= |Scan(t[1..], m)| && Scan(t[1..], m)[..n - 1] == t[1..][..n - 1]
    ensures n <= |Scan(t, m)| && Scan(t, m)[..n] == t[..n]
  {
    var rest := Scan(t[1..], m);
    assert Scan(t, m) == [t[0]] + rest;
    assert ([t[0]] + rest)[..n] == [t[0]] + rest[..n - 1];
    assert t[..n] == [t[0]] + t[1..][..n - 1];
  }

  /** A character the matcher passes over moves a match of the rest one place on. */
  lemma HitShift(t: string, m: Matcher, h: nat)
    requires Sound(m) && t != [] && m(t).None? && HitAt(t[1..], m, h)
    ensures HitAt(t, m, h + 1)
  {
    var rest := Scan(t[1..], m);
    assert Scan(t, m) == [t[0]] + rest;
    assert t[1..][h..] == t[h + 1..];
    assert Scan(t, m)[h + 1..] == rest[h..];
  }

  /**
   * A replacement text `o` that cannot take part in an occurrence of `q`:
   * `q` is not inside it, it holds a character foreign to `q`, and no proper
   * end of `q` meets its start, nor its end a proper start of `q`.
   */
  ghost predicate Avoids(o: string, q: string) {
    && !Contains(o, q)
    && (exists j :: 0 <= j < |o| && o[j] !in q)
    && (forall n :: 1 <= n < |q| && n <= |o| ==> q[|q| - n..] != o[..n])
    && (forall n :: 1 <= n < |q| && n <= |o| ==> q[..n] != o[|o| - n..])
  }

  /** A replacement that avoids `q`, followed by a text free of `q`, is free of `q`. */
  lemma AvoidThenFree(o: string, tail: string, q: string)
    requires |q| > 0 && Avoids(o, q) && !Contains(tail, q)
    ensures !Contains(o + tail, q)
  {
    forall k | 0 <= k <= |o + tail| - |q|
      ensures !OccursAt(o + tail, q, k)
    {
      if k + |q| <= |o| {
        assert (o + tail)[k..k + |q|] == o[k..k + |q|];
        assert !OccursAt(o, q, k);
      } else if k >= |o| {
        assert (o + tail)[k..k + |q|] == tail[k - |o|..k - |o| + |q|];
        assert !OccursAt(tail, q, k - |o|);
      } else {
        StraddleBlocked(o, tail, q, k);
      }
    }
  }

  /** An occurrence cannot start inside a replacement that avoids `q` and run past its end. */
  lemma StraddleBlocked(o: string, tail: string, q: string, k: nat)
    requires Avoids(o, q) && k < |o| < k + |q| <= |o + tail|
    ensures !OccursAt(o + tail, q, k)
  {
    var n := |o| - k;
    assert q[..n] != o[|o| - n..];
    assert (o + tail)[k..k + |q|][..n] == o[k..];
  }

  /**
   * If `q` without its first character is read at the start of `tail`, and
   * `o` is emitted in `tail` at index `h` before that reading ends, then
   * either an end of `q` is a start of `o`, or `o` lies inside `q`: `o`
   * does not avoid `q`.
   */
  lemma AlignAfterCopy(q: string, tail: string, o: string, r: string, h: nat)
    requires 1 <= |q| && |q| - 1 <= |tail| && q[1..] == tail[..|q| - 1]
    requires h < |q| - 1 && h <= |tail| && tail[h..] == o + r
    ensures !Avoids(o, q)
  {
    var n := |q| - 1;
    if n - h <= |o| {
      assert q[|q| - (n - h)..] == q[1..][h..];
      assert tail[..n][h..] == tail[h..n] == tail[h..][..n - h];
      assert (o + r)[..n - h] == o[..n - h];
    } else {
      forall j | 0 <= j < |o|
        ensures o[j] in q
      {
        assert tail[h + j] == o[j];
        assert q[1 + h + j] == tail[h + j];
      }
    }
  }

  /** `q` read at the head of `[c] + tail` is `c` followed by the head of `tail`. */
  lemma OccursAfterHead(c: char, tail: string, q: string)
    requires |q| > 0
    ensures OccursAt([c] + tail, q, 0)
        <==> |q| - 1 <= |tail| && q[0] == c && q[1..] == tail[..|q| - 1]
  {
    if |q| - 1 <= |tail| {
      assert ([c] + tail)[..|q|] == [c] + tail[..|q| - 1];
    }
  }

  /**
   * An occurrence of `q` cannot begin just before the scan of `rest` unless
   * it reads `c + rest` unchanged: any replacement it reached would have to
   * take part in it.
   */
  lemma NoOccurrenceAcrossCopy(s: string, m: Matcher, q: string)
    requires Sound(m) && |q| > 0 && s != []
    requires forall t :: m(t).Some? ==> Avoids(m(t).value.out, q)
    requires OccursAt([s[0]] + Scan(s[1..], m), q, 0)
    ensures OccursAt(s, q, 0)
  {
    var rest, tail := s[1..], Scan(s[1..], m);
    var n := |q| - 1;
    OccursAfterHead(s[0], tail, q);
    ScanPrefix(rest, m, n);
    if n <= |rest| && tail[..n] == rest[..n] {
      OccursAfterHead(s[0], rest, q);
      assert [s[0]] + rest == s;
    } else {
      var h :| 0 <= h < n && HitAt(rest, m, h);
      HitNotAvoiding(rest, m, q, h);
      assert false;
    }
  }

  /** A match emitted before the copied reading of `q` ends does not avoid `q`. */
  lemma HitNotAvoiding(rest: string, m: Matcher, q: string, h: nat)
    requires Sound(m) && |q| > 0 && |q| - 1 <= |Scan(rest, m)|
    requires q[1..] == Scan(rest, m)[..|q| - 1]
    requires h < |q| - 1 && HitAt(rest, m, h)
    ensures !Avoids(m(rest[h..]).value.out, q)
  {
    var hit := m(rest[h..]).value;
    AlignAfterCopy(q, Scan(rest, m), hit.out, Scan(rest[h + hit.len..], m), h);
  }

  /**
   * A copied character followed by the scan of the rest holds no occurrence
   * of `q`, provided none starts at the copied character in the input.
   */
  lemma CopiedThenFree(s: string, m: Matcher, q: string)
    requires Sound(m) && |q| > 0 && s != []
    requires forall t :: m(t).Some? ==> Avoids(m(t).value.out, q)
    requires !OccursAt(s, q, 0)
    requires !Contains(Scan(s[1..], m), q)
    ensures !Contains([s[0]] + Scan(s[1..], m), q)
  {
    var tail := Scan(s[1..], m);
    forall k | 0 <= k <= |[s[0]] + tail| - |q|
      ensures !OccursAt([s[0]] + tail, q, k)
    {
      if k == 0 {
        if OccursAt([s[0]] + tail, q, 0) {
          NoOccurrenceAcrossCopy(s, m, q);
        }
      } else {
        assert ([s[0]] + tail)[k..k + |q|] == tail[k - 1..k - 1 + |q|];
        assert !OccursAt(tail, q, k - 1);
      }
    }
  }

  /**
   * If every occurrence of `q` in the input starts a match and no
   * replacement can take part in an occurrence of `q`, the output holds no
   * occurrence of `q` at all.
   */
  lemma {:induction false} ScanAvoid(s: string, m: Matcher, q: string)
    requires Sound(m) && |q| > 0
    requires forall t :: m(t).Some? ==> Avoids(m(t).value.out, q)
    requires forall i :: 0 <= i <= |s| - |q| && OccursAt(s, q, i) ==> m(s[i..]).Some?
    ensures !Contains(Scan(s, m), q)
    decreases |s|
  {
    if s == [] {
      return;
    }
    assert s[0..] == s;
    var k := if m(s).Some? then m(s).value.len else 1;
    var rest := s[k..];
    forall i | 0 <= i <= |rest| - |q| && OccursAt(rest, q, i)
      ensures m(rest[i..]).Some?
    {
      OccursInSuffix(s, q, k, i);
      assert rest[i..] == s[k + i..];
    }
    ScanAvoid(rest, m, q);
    if m(s).Some? {
      AvoidThenFree(m(s).value.out, Scan(rest, m), q);
    } else {
      CopiedThenFree(s, m, q);
    }
  }
}
