/** Basic text predicates on `string` (= `seq<char>`). */
module Strings {

  /** `s` begins with `p` (Rust `starts_with`, JS `startsWith`). */
  predicate StartsWith(s: string, p: string) {
    |p| <= |s| && s[..|p|] == p
  }

  /** `s` ends with `p` (Rust `ends_with`, JS `endsWith`). */
  predicate EndsWith(s: string, p: string) {
    |p| <= |s| && s[|s| - |p|..] == p
  }

  /** `p` occurs in `s` starting at index `i`. */
  predicate OccursAt(s: string, p: string, i: int) {
    0 <= i && i + |p| <= |s| && s[i..i + |p|] == p
  }

  /** `p` occurs somewhere in `s` (Rust `contains`, JS `includes`). */
  predicate Contains(s: string, p: string) {
    exists i | 0 <= i <= |s| - |p| :: OccursAt(s, p, i)
  }

  /** Concatenation of `parts` with `sep` between neighbours (Rust `join`, JS `join`). */
  function Join(parts: seq<string>, sep: string): string {
    if |parts| == 0 then []
    else if |parts| == 1 then parts[0]
    else parts[0] + sep + Join(parts[1..], sep)
  }

  lemma OccursInSuffix(s: string, p: string, k: nat, i: int)
    requires k <= |s| && OccursAt(s[k..], p, i)
    ensures OccursAt(s, p, k + i)
  {
    assert s[k..][i..i + |p|] == s[k + i..k + i + |p|];
  }

  lemma OccursInPrefix(s: string, p: string, k: nat, i: int)
    requires k <= |s| && OccursAt(s[..k], p, i)
    ensures OccursAt(s, p, i)
  {
    assert s[..k][i..i + |p|] == s[i..i + |p|];
  }

  /** An occurrence inside a part of a concatenation is an occurrence of the whole. */
  lemma ContainsAppend(a: string, b: string, p: string)
    ensures Contains(a, p) ==> Contains(a + b, p)
    ensures Contains(b, p) ==> Contains(a + b, p)
  {
    if Contains(a, p) {
      var i :| 0 <= i <= |a| - |p| && OccursAt(a, p, i);
      assert (a + b)[i..i + |p|] == a[i..i + |p|];
      assert OccursAt(a + b, p, i);
    }
    if Contains(b, p) {
      var i :| 0 <= i <= |b| - |p| && OccursAt(b, p, i);
      assert (a + b)[|a| + i..|a| + i + |p|] == b[i..i + |p|];
      assert OccursAt(a + b, p, |a| + i);
    }
  }

  /** A text missing one of the characters of `p` does not contain `p`. */
  lemma LacksChar(t: string, p: string, c: char)
    requires c in p && c !in t
    ensures !Contains(t, p)
  {
    var j :| 0 <= j < |p| && p[j] == c;
    forall i | 0 <= i <= |t| - |p|
      ensures !OccursAt(t, p, i)
    {
      assert t[i..i + |p|][j] == t[i + j];
    }
  }
}
