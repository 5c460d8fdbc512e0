/**
 * The string primitives the chat bot relies on: Python's `str.lower()` and the
 * substring test `needle in haystack`, plus `any(w in s for w in words)`.
 */
module Text {

  predicate IsUpper(c: char) {
    'A' <= c <= 'Z'
  }

  /** One character of `str.lower()`, restricted to the ASCII letters. */
  function LowerChar(c: char): (d: char)
    ensures !IsUpper(d)
    ensures IsUpper(c) ==> d as int - c as int == 'a' as int - 'A' as int
    ensures !IsUpper(c) ==> d == c
  {
    if IsUpper(c) then (c as int - 'A' as int + 'a' as int) as char else c
  }

  /** `s.lower()`: every ASCII capital becomes its small letter, all else stays. */
  function Lower(s: string): (r: string)
    ensures |r| == |s|
    ensures forall i :: 0 <= i < |s| ==> r[i] == LowerChar(s[i])
    ensures forall i :: 0 <= i < |r| ==> !IsUpper(r[i])
  {
    seq(|s|, i requires 0 <= i < |s| => LowerChar(s[i]))
  }

  /** Lower-casing twice is lower-casing once. */
  lemma LowerIdempotent(s: string)
    ensures Lower(Lower(s)) == Lower(s)
  {
    assert forall i :: 0 <= i < |s| ==> LowerChar(LowerChar(s[i])) == LowerChar(s[i]);
  }

  /** A string without capitals is its own lower-case form. */
  lemma LowerFixesLowerCase(s: string)
    requires forall i :: 0 <= i < |s| ==> !IsUpper(s[i])
    ensures Lower(s) == s
  {
  }

  predicate IsPrefix(p: string, t: string) {
    |p| <= |t| && t[..|p|] == p
  }

  /** Python's `p in t` on strings: `p` occurs as a contiguous block of `t`. */
  predicate Contains(t: string, p: string)
    ensures Contains(t, p) ==> |p| <= |t|
    ensures p == [] ==> Contains(t, p)
    ensures t == p ==> Contains(t, p)
    decreases |t|
  {
    IsPrefix(p, t) || (|t| > 0 && Contains(t[1..], p))
  }

  /** `p` sits in `t` at offset `i`. */
  predicate OccursAt(t: string, p: string, i: int) {
    0 <= i <= |t| - |p| && t[i..i + |p|] == p
  }

  /** `Contains` holds exactly when `p` sits at some offset of `t`. */
  lemma {:induction false} ContainsAt(t: string, p: string)
    ensures Contains(t, p) <==> exists i :: OccursAt(t, p, i)
    decreases |t|
  {
    if IsPrefix(p, t) {
      assert OccursAt(t, p, 0);
    } else if |t| > 0 {
      ContainsAt(t[1..], p);
      if Contains(t[1..], p) {
        var i :| OccursAt(t[1..], p, i);
        assert t[i + 1..i + 1 + |p|] == t[1..][i..i + |p|];
        assert OccursAt(t, p, i + 1);
      }
      if exists i :: OccursAt(t, p, i) {
        var i :| OccursAt(t, p, i);
        assert i != 0;
        assert t[1..][i - 1..i - 1 + |p|] == t[i..i + |p|];
        assert OccursAt(t[1..], p, i - 1);
      }
    }
  }

  /** A block of a block of `t` is a block of `t` (e.g. "weeds" in t gives "weed" in t). */
  lemma ContainsTransitive(t: string, p: string, q: string)
    requires Contains(t, p) && Contains(p, q)
    ensures Contains(t, q)
  {
    ContainsAt(t, p);
    ContainsAt(p, q);
    ContainsAt(t, q);
    var i :| OccursAt(t, p, i);
    var j :| OccursAt(p, q, j);
    forall k | 0 <= k < |q| ensures t[i + j + k] == q[k] {
      assert t[i..i + |p|][j + k] == p[j + k];
    }
    assert t[i + j..i + j + |q|] == q;
    assert OccursAt(t, q, i + j);
  }

  /** A string using a character that `t` lacks cannot occur in `t`. */
  lemma MissingCharBlocks(t: string, p: string, c: char)
    requires c in p && c !in t
    ensures !Contains(t, p)
  {
    ContainsAt(t, p);
  }

  /** Python's `any(w in t for w in words)`. */
  predicate AnyIn(words: seq<string>, t: string)
    ensures words == [] ==> !AnyIn(words, t)
    ensures |words| == 1 ==> (AnyIn(words, t) <==> Contains(t, words[0]))
  {
    exists w | w in words :: Contains(t, w)
  }

  /** Testing two word lists one after the other is testing their concatenation. */
  lemma AnyInConcat(a: seq<string>, b: seq<string>, t: string)
    ensures AnyIn(a + b, t) <==> AnyIn(a, t) || AnyIn(b, t)
  {
    if AnyIn(a + b, t) {
      var w :| w in a + b && Contains(t, w);
      assert w in a || w in b;
    }
    if AnyIn(a, t) {
      var w :| w in a && Contains(t, w);
      assert w in a + b;
    }
    if AnyIn(b, t) {
      var w :| w in b && Contains(t, w);
      assert w in a + b;
    }
  }
}
