/**
 * The handful of Python string built-ins the analyser relies on, over
 * `string` (= `seq<char>`):
 *  - `str.lower()` / `str.upper()`, restricted to ASCII case folding;
 *  - the substring test `k in s`;
 *  - `any(k in s for k in keys)`;
 *  - `str.replace(a, b)` for a one-character pattern and replacement.
 */
module Strings {

  predicate IsUpperAscii(c: char) { 'A' <= c <= 'Z' }

  predicate IsLowerAscii(c: char) { 'a' <= c <= 'z' }

  /** ASCII lower-casing of one character; every other character is kept. */
  function LowerChar(c: char): (r: char)
    ensures !IsUpperAscii(r)
    ensures r != c ==> IsUpperAscii(c) && IsLowerAscii(r)
  {
    if IsUpperAscii(c) then (c as int - 'A' as int + 'a' as int) as char else c
  }

  /** ASCII upper-casing of one character; every other character is kept. */
  function UpperChar(c: char): (r: char)
    ensures !IsLowerAscii(r)
    ensures r != c ==> IsLowerAscii(c) && IsUpperAscii(r)
  {
    if IsLowerAscii(c) then (c as int - 'a' as int + 'A' as int) as char else c
  }

  /** `s.lower()` under ASCII folding: the same length, folded character by character. */
  function Lower(s: string): (r: string)
    ensures |r| == |s|
    ensures forall i :: 0 <= i < |s| ==> r[i] == LowerChar(s[i])
  {
    if s == [] then [] else [LowerChar(s[0])] + Lower(s[1..])
  }

  /** `s.upper()` under ASCII folding: the same length, folded character by character. */
  function Upper(s: string): (r: string)
    ensures |r| == |s|
    ensures forall i :: 0 <= i < |s| ==> r[i] == UpperChar(s[i])
  {
    if s == [] then [] else [UpperChar(s[0])] + Upper(s[1..])
  }

  lemma LowerIdempotent(s: string)
    ensures Lower(Lower(s)) == Lower(s)
  {
    forall i | 0 <= i < |s| ensures Lower(Lower(s))[i] == Lower(s)[i] {
      assert LowerChar(LowerChar(s[i])) == LowerChar(s[i]);
    }
  }

  /** Lower-casing forgets whatever case the text was in. */
  lemma LowerOfUpper(s: string)
    ensures Lower(Upper(s)) == Lower(s)
  {
    forall i | 0 <= i < |s| ensures Lower(Upper(s))[i] == Lower(s)[i] {
      assert LowerChar(UpperChar(s[i])) == LowerChar(s[i]);
    }
  }

  lemma LowerConcat(a: string, b: string)
    ensures Lower(a + b) == Lower(a) + Lower(b)
  {
    forall i | 0 <= i < |a + b| ensures Lower(a + b)[i] == (Lower(a) + Lower(b))[i] {
      if i < |a| {
        assert (a + b)[i] == a[i];
      } else {
        assert (a + b)[i] == b[i - |a|];
      }
    }
  }

  /** `k` sits in `s` starting at index `i`. */
  predicate OccursAt(k: string, s: string, i: int) {
    0 <= i && i + |k| <= |s| && s[i..i + |k|] == k
  }

  /**
   * Python's `k in s`: scan the start positions of `s` from the left. The
   * empty key is always found and a key longer than `s` never is.
   */
  function IsSubstring(k: string, s: string): (r: bool)
    ensures k == [] ==> r
    ensures r ==> |k| <= |s|
    decreases |s|
  {
    if |k| > |s| then false
    else if s[..|k|] == k then true
    else IsSubstring(k, s[1..])
  }

  /** The scan answers true exactly when `k` occurs somewhere in `s`. */
  lemma {:induction false} IsSubstringOccurs(k: string, s: string)
    ensures IsSubstring(k, s) <==> exists i :: OccursAt(k, s, i)
    decreases |s|
  {
    if |k| > |s| {
      assert forall i :: !OccursAt(k, s, i);
    } else if s[..|k|] == k {
      assert OccursAt(k, s, 0);
    } else {
      ShiftOccurrence(k, s);
      IsSubstringOccurs(k, s[1..]);
    }
  }

  /** An occurrence in `s` at a position other than 0 is an occurrence in `s[1..]`, and back. */
  lemma ShiftOccurrence(k: string, s: string)
    requires s != [] && !OccursAt(k, s, 0)
    ensures (exists i :: OccursAt(k, s, i)) <==> (exists i :: OccursAt(k, s[1..], i))
  {
    if i :| OccursAt(k, s, i) {
      assert i > 0;
      assert s[1..][i - 1..i - 1 + |k|] == s[i..i + |k|];
      assert OccursAt(k, s[1..], i - 1);
    }
    if i :| OccursAt(k, s[1..], i) {
      assert s[i + 1..i + 1 + |k|] == s[1..][i..i + |k|];
      assert OccursAt(k, s, i + 1);
    }
  }

  /** A substring is never longer than the text it occurs in. */
  lemma SubstringNoLonger(k: string, s: string)
    requires IsSubstring(k, s)
    ensures |k| <= |s|
  {
    IsSubstringOccurs(k, s);
    var i :| OccursAt(k, s, i);
  }

  /** Adding text on either side keeps every occurrence. */
  lemma SubstringExtend(k: string, a: string, t: string, b: string)
    requires IsSubstring(k, t)
    ensures IsSubstring(k, a + t + b)
  {
    IsSubstringOccurs(k, t);
    IsSubstringOccurs(k, a + t + b);
    var i :| OccursAt(k, t, i);
    var u := a + t + b;
    assert u[|a| + i..|a| + i + |k|] == t[i..i + |k|];
    assert OccursAt(k, u, |a| + i);
  }

  /** Substring occurrence is transitive: a piece of a piece of `s` is a piece of `s`. */
  lemma SubstringTransitive(k: string, m: string, s: string)
    requires IsSubstring(k, m) && IsSubstring(m, s)
    ensures IsSubstring(k, s)
  {
    IsSubstringOccurs(k, m);
    IsSubstringOccurs(m, s);
    IsSubstringOccurs(k, s);
    var i :| OccursAt(k, m, i);
    var j :| OccursAt(m, s, j);
    forall p | 0 <= p < |k| ensures s[j + i..j + i + |k|][p] == k[p] {
      assert k[p] == m[i + p] == s[j + i + p];
    }
    assert OccursAt(k, s, j + i);
  }

  /** `any(k in s for k in keys)`: some key of the list occurs in `s`. */
  function AnyIn(keys: seq<string>, s: string): (r: bool)
    ensures r <==> exists j :: 0 <= j < |keys| && IsSubstring(keys[j], s)
  {
    if keys == [] then false
    else IsSubstring(keys[0], s) || AnyIn(keys[1..], s)
  }

  /** Some key of the list occurs at some index of `s`. */
  ghost predicate SomeKeyOccurs(keys: seq<string>, s: string) {
    exists j, i :: 0 <= j < |keys| && OccursAt(keys[j], s, i)
  }

  lemma AnyInOccurs(keys: seq<string>, s: string)
    ensures AnyIn(keys, s) <==> SomeKeyOccurs(keys, s)
  {
    if AnyIn(keys, s) {
      var j :| 0 <= j < |keys| && IsSubstring(keys[j], s);
      IsSubstringOccurs(keys[j], s);
      var i :| OccursAt(keys[j], s, i);
    }
    if SomeKeyOccurs(keys, s) {
      var j, i :| 0 <= j < |keys| && OccursAt(keys[j], s, i);
      IsSubstringOccurs(keys[j], s);
    }
  }

  /** Adding text on either side keeps a key that was found. */
  lemma AnyInExtend(keys: seq<string>, a: string, t: string, b: string)
    requires AnyIn(keys, t)
    ensures AnyIn(keys, a + t + b)
  {
    var j :| 0 <= j < |keys| && IsSubstring(keys[j], t);
    SubstringExtend(keys[j], a, t, b);
  }

  lemma AnyInConcat(xs: seq<string>, ys: seq<string>, s: string)
    ensures AnyIn(xs + ys, s) <==> AnyIn(xs, s) || AnyIn(ys, s)
  {
    var zs := xs + ys;
    if AnyIn(zs, s) {
      var j :| 0 <= j < |zs| && IsSubstring(zs[j], s);
      if j < |xs| { assert zs[j] == xs[j]; } else { assert zs[j] == ys[j - |xs|]; }
    }
    if AnyIn(xs, s) {
      var j :| 0 <= j < |xs| && IsSubstring(xs[j], s);
      assert zs[j] == xs[j];
    }
    if AnyIn(ys, s) {
      var j :| 0 <= j < |ys| && IsSubstring(ys[j], s);
      assert zs[|xs| + j] == ys[j];
    }
  }

  /** What `p + q + s` is made of, piece by piece. */
  lemma Framed(p: string, q: string, s: string, c: char)
    requires c !in p && c !in q && c !in s
    ensures (p + q + s)[..|p|] == p && (p + q + s)[|p| + |q|..] == s
    ensures forall i :: 0 <= i < |q| ==> (p + q + s)[|p| + i] == q[i]
    ensures c !in p + q + s
  {
    var r := p + q + s;
    assert r[..|p|] == p;
    assert r[|p| + |q|..] == s;
  }

  /**
   * `s.replace(from, to)` with one-character pattern and replacement: every
   * `from` becomes `to`, every other character stays where it was.
   */
  function ReplaceChar(s: string, from: char, to: char): (r: string)
    ensures |r| == |s|
    ensures forall i :: 0 <= i < |s| ==> r[i] == (if s[i] == from then to else s[i])
  {
    if s == [] then []
    else [if s[0] == from then to else s[0]] + ReplaceChar(s[1..], from, to)
  }

  /** After the replacement no `from` is left, unless it was also the replacement. */
  lemma ReplaceCharRemoves(s: string, from: char, to: char)
    requires from != to
    ensures from !in ReplaceChar(s, from, to)
  {
  }

  /** Replacing back undoes the replacement when `to` did not occur beforehand. */
  lemma ReplaceCharInverse(s: string, from: char, to: char)
    requires to !in s
    ensures ReplaceChar(ReplaceChar(s, from, to), to, from) == s
  {
    var r := ReplaceChar(ReplaceChar(s, from, to), to, from);
    forall i | 0 <= i < |s| ensures r[i] == s[i] {
      assert s[i] != to;
    }
  }
}
