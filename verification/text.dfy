/**
 The string operations count_words relies on: `str.lower()`, the substring
 test `p in s`, and the `<` order on `str` that `sorted` uses for ties.
 Lowercasing is modelled on ASCII letters only.
 */
module Text {

  /** Lowercase one character: 'A'..'Z' map to 'a'..'z', everything else is kept. */
  function LowerChar(c: char): char
  {
    if 'A' <= c <= 'Z' then (c as int + 32) as char else c
  }

  /** `s.lower()`, character by character. */
  function Lower(s: string): (r: string)
    ensures |r| == |s|
    ensures forall i :: 0 <= i < |s| ==> r[i] == LowerChar(s[i])
  {
    if s == [] then [] else [LowerChar(s[0])] + Lower(s[1..])
  }

  /** `t` is the lowercase of `s` when they agree character by character. */
  lemma LowerPointwise(s: string, t: string)
    requires |s| == |t|
    requires forall i :: 0 <= i < |s| ==> LowerChar(s[i]) == t[i]
    ensures Lower(s) == t
  {
  }

  /** A string with no upper-case ASCII letter. */
  predicate IsLower(s: string)
  {
    forall i :: 0 <= i < |s| ==> !('A' <= s[i] <= 'Z')
  }

  /** Lowercasing yields a lowercase string and is idempotent. */
  lemma LowerIdempotent(s: string)
    ensures IsLower(Lower(s))
    ensures Lower(Lower(s)) == Lower(s)
  {
  }

  /** Lowercasing leaves a string unchanged exactly when it is already lowercase. */
  lemma LowerFixedIffLower(s: string)
    ensures Lower(s) == s <==> IsLower(s)
  {
    if Lower(s) == s {
      forall i | 0 <= i < |s| ensures !('A' <= s[i] <= 'Z') {
        assert Lower(s)[i] == LowerChar(s[i]);
      }
    }
  }

  /** Python's `p in s` on strings: `p` occurs in `s` at some offset (the empty string occurs everywhere). */
  function Contains(s: string, p: string): bool
  {
    p <= s || (s != [] && Contains(s[1..], p))
  }

  /** `p` occurs in `s` starting at index `i`. */
  predicate OccursAt(s: string, p: string, i: int)
  {
    0 <= i && i + |p| <= |s| && s[i..i + |p|] == p
  }

  /** The recursive substring test agrees with "occurs at some offset", in both directions. */
  lemma {:induction false} ContainsIff(s: string, p: string)
    ensures Contains(s, p) <==> exists i :: OccursAt(s, p, i)
  {
    if p <= s {
      assert OccursAt(s, p, 0);
    } else if s == [] {
      assert forall i :: !OccursAt(s, p, i);
    } else {
      ContainsIff(s[1..], p);
      if Contains(s[1..], p) {
        var i :| OccursAt(s[1..], p, i);
        assert s[i + 1..i + 1 + |p|] == s[1..][i..i + |p|];
        assert OccursAt(s, p, i + 1);
      }
      forall i | OccursAt(s, p, i) ensures Contains(s[1..], p) {
        assert i != 0;
        assert s[1..][i - 1..i - 1 + |p|] == s[i..i + |p|];
        assert OccursAt(s[1..], p, i - 1);
      }
    }
  }

  /** A non-empty string found in `s` starts with a character of `s`. */
  lemma {:induction false} ContainsHead(s: string, p: string)
    requires p != [] && Contains(s, p)
    ensures p[0] in s
  {
    if !(p <= s) {
      ContainsHead(s[1..], p);
      assert p[0] in s[1..];
    }
  }

  /** Python's `a < b` on `str`: lexicographic by code point, a proper prefix first. */
  predicate LexLess(a: string, b: string)
  {
    if b == [] then false
    else if a == [] then true
    else if a[0] != b[0] then a[0] < b[0]
    else LexLess(a[1..], b[1..])
  }

  /** `<` on strings is irreflexive. */
  lemma {:induction false} LexLessIrreflexive(a: string)
    ensures !LexLess(a, a)
  {
    if a != [] {
      LexLessIrreflexive(a[1..]);
    }
  }

  /** `<` on strings is asymmetric. */
  lemma {:induction false} LexLessAsymmetric(a: string, b: string)
    ensures !(LexLess(a, b) && LexLess(b, a))
  {
    if a != [] && b != [] && a[0] == b[0] {
      LexLessAsymmetric(a[1..], b[1..]);
    }
  }

  /** Any two different strings are ordered one way or the other. */
  lemma {:induction false} LexLessTotal(a: string, b: string)
    requires a != b
    ensures LexLess(a, b) || LexLess(b, a)
  {
    if a != [] && b != [] && a[0] == b[0] {
      assert a == [a[0]] + a[1..] && b == [b[0]] + b[1..];
      LexLessTotal(a[1..], b[1..]);
    }
  }

  /** `<` on strings is transitive. */
  lemma {:induction false} LexLessTransitive(a: string, b: string, c: string)
    requires LexLess(a, b) && LexLess(b, c)
    ensures LexLess(a, c)
  {
    if a != [] && a[0] == b[0] && b[0] == c[0] {
      LexLessTransitive(a[1..], b[1..], c[1..]);
    }
  }
}
