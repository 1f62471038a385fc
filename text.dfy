/**
 * Character and string comparisons shared by the trigger matcher: exact or
 * case-folded equality, prefix, suffix and substring tests.
 */
module Text {

  /**
   * The canonical form this model compares characters under when the `i` flag
   * is set: ASCII lower-case letters are upper-cased and every other character
   * is left as it is. JavaScript also folds non-ASCII letters; README's
   * "Left out" section records that this model does not.
   */
  function Canon(c: char): char
  {
    if 'a' <= c <= 'z' then (c as int - 32) as char else c
  }

  predicate CharEq(a: char, b: char, ignoreCase: bool)
  {
    if ignoreCase then Canon(a) == Canon(b) else a == b
  }

  /** Equal length and equal character by character, up to case when `ignoreCase` holds. */
  predicate TextEq(x: string, y: string, ignoreCase: bool)
  {
    |x| == |y| && forall k :: 0 <= k < |x| ==> CharEq(x[k], y[k], ignoreCase)
  }

  predicate HasPrefix(s: string, p: string, ignoreCase: bool)
  {
    |p| <= |s| && TextEq(s[..|p|], p, ignoreCase)
  }

  predicate HasSuffix(s: string, p: string, ignoreCase: bool)
  {
    |p| <= |s| && TextEq(s[|s| - |p|..], p, ignoreCase)
  }

  /** `p` occurs somewhere in `s`: a prefix of `s` or of one of its tails. */
  predicate Includes(s: string, p: string, ignoreCase: bool)
    decreases |s|
  {
    HasPrefix(s, p, ignoreCase) || (s != [] && Includes(s[1..], p, ignoreCase))
  }

  /** Without case folding the comparison is plain string equality. */
  lemma ExactComparison(x: string, y: string)
    ensures TextEq(x, y, false) <==> x == y
  {
    if TextEq(x, y, false) {
      assert forall k :: 0 <= k < |x| ==> x[k] == y[k];
    }
  }

  /**
   * Two characters that JavaScript's `i` flag treats as the same letter, as far
   * as this model folds: equal, or an ASCII lower-case letter and its upper-case
   * partner 32 code points below, in either order.
   */
  predicate SameUpToAsciiCase(a: char, b: char)
  {
    a == b
    || ('a' <= a <= 'z' && b as int == a as int - 32)
    || ('a' <= b <= 'z' && a as int == b as int - 32)
  }

  /** The case fold identifies exactly the pairs `SameUpToAsciiCase` names. */
  lemma FoldedChar(a: char, b: char)
    ensures CharEq(a, b, true) <==> SameUpToAsciiCase(a, b)
  {
    if 'a' <= a <= 'z' {
      assert Canon(a) as int == a as int - 32;
    }
    if 'a' <= b <= 'z' {
      assert Canon(b) as int == b as int - 32;
    }
  }

  /**
   * Under case folding two strings compare equal exactly when they have the
   * same length and agree character by character up to ASCII letter case.
   */
  lemma FoldedComparison(x: string, y: string)
    ensures TextEq(x, y, true)
        <==> |x| == |y| && forall k :: 0 <= k < |x| ==> SameUpToAsciiCase(x[k], y[k])
  {
    forall k | 0 <= k < |x| && k < |y|
      ensures CharEq(x[k], y[k], true) <==> SameUpToAsciiCase(x[k], y[k])
    {
      FoldedChar(x[k], y[k]);
    }
  }

  /** `p` matches `s` at position `i`. */
  predicate OccursAt(s: string, p: string, i: int, ignoreCase: bool)
  {
    0 <= i <= |s| - |p| && TextEq(s[i..i + |p|], p, ignoreCase)
  }

  /** `Includes` holds exactly when `p` matches at some position of `s`. */
  lemma {:induction false} IncludesAt(s: string, p: string, ignoreCase: bool)
    ensures Includes(s, p, ignoreCase) <==> exists i :: OccursAt(s, p, i, ignoreCase)
    decreases |s|
  {
    if s == [] {
      if Includes(s, p, ignoreCase) {
        assert OccursAt(s, p, 0, ignoreCase);
      }
    } else {
      IncludesAt(s[1..], p, ignoreCase);
      if HasPrefix(s, p, ignoreCase) {
        assert s[0..0 + |p|] == s[..|p|];
        assert OccursAt(s, p, 0, ignoreCase);
      } else if Includes(s[1..], p, ignoreCase) {
        var j :| OccursAt(s[1..], p, j, ignoreCase);
        assert s[1..][j..j + |p|] == s[j + 1..j + 1 + |p|];
        assert OccursAt(s, p, j + 1, ignoreCase);
      }
      if exists i :: OccursAt(s, p, i, ignoreCase) {
        var i :| OccursAt(s, p, i, ignoreCase);
        if i == 0 {
          assert s[0..0 + |p|] == s[..|p|];
        } else {
          assert s[1..][i - 1..i - 1 + |p|] == s[i..i + |p|];
          assert OccursAt(s[1..], p, i - 1, ignoreCase);
        }
      }
    }
  }

  /** `p` is the slice of `s` starting at `i`. */
  predicate SliceAt(s: string, p: string, i: int)
  {
    0 <= i <= |s| - |p| && s[i..i + |p|] == p
  }

  /** The case-exact `Includes` is the ordinary substring relation. */
  lemma SubstringIncludes(s: string, p: string)
    ensures Includes(s, p, false) <==> exists i :: SliceAt(s, p, i)
  {
    IncludesAt(s, p, false);
    forall i ensures OccursAt(s, p, i, false) <==> SliceAt(s, p, i) {
      if 0 <= i <= |s| - |p| {
        ExactComparison(s[i..i + |p|], p);
      }
    }
  }
}
