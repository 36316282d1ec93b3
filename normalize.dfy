/**
 * Answer normalisation: Python's `s.strip().lower()`, used on both the submitted
 * and the stored answer before they are compared.
 */
module Normalize {

  /** Python's `str.isspace`: every code point that `strip()` with no argument removes. */
  predicate IsSpace(c: char)
  {
    var n := c as int;
    (9 <= n <= 13) || (28 <= n <= 32) || n == 0x85 || n == 0xA0 || n == 0x1680
    || (0x2000 <= n <= 0x200A) || n == 0x2028 || n == 0x2029 || n == 0x202F
    || n == 0x205F || n == 0x3000
  }

  predicate AllSpace(s: string)
  {
    forall i :: 0 <= i < |s| ==> IsSpace(s[i])
  }

  /**
   * The upper-case letters whose lower-case form this model knows: ASCII, Latin-1,
   * the basic Cyrillic block and the letters Kazakh adds to it.
   */
  predicate IsUpper(c: char)
  {
    var n := c as int;
    ('A' as int <= n <= 'Z' as int)
    || (0xC0 <= n <= 0xDE && n != 0xD7)
    || (0x400 <= n <= 0x42F)
    || n in {0x492, 0x49A, 0x4A2, 0x4AE, 0x4B0, 0x4BA, 0x4D8, 0x4E8}
  }

  /** Python's `lower()` on one character, restricted to the letters of `IsUpper`. */
  function LowerChar(c: char): (d: char)
    ensures !IsUpper(d)
    ensures IsSpace(d) <==> IsSpace(c)
    ensures !IsUpper(c) ==> d == c
  {
    var n := c as int;
    if 'A' as int <= n <= 'Z' as int || (0xC0 <= n <= 0xDE && n != 0xD7) || (0x410 <= n <= 0x42F) then
      (n + 0x20) as char
    else if 0x400 <= n <= 0x40F then
      (n + 0x50) as char
    else if n in {0x492, 0x49A, 0x4A2, 0x4AE, 0x4B0, 0x4BA, 0x4D8, 0x4E8} then
      (n + 1) as char
    else
      c
  }

  /** Python's `lower()` on a string. */
  function Lower(s: string): (r: string)
  {
    seq(|s|, i requires 0 <= i < |s| => LowerChar(s[i]))
  }

  /** Python's `lstrip()`. */
  function StripLeft(s: string): string
  {
    if |s| > 0 && IsSpace(s[0]) then StripLeft(s[1..]) else s
  }

  /** `lstrip()` removes a run of leading whitespace and stops at the first other character. */
  lemma {:induction false} StripLeftSpec(s: string)
    ensures |StripLeft(s)| <= |s| && StripLeft(s) == s[|s| - |StripLeft(s)|..]
    ensures AllSpace(s[..|s| - |StripLeft(s)|])
    ensures StripLeft(s) == [] || !IsSpace(StripLeft(s)[0])
  {
    if |s| > 0 && IsSpace(s[0]) {
      StripLeftSpec(s[1..]);
      var k := |s| - |StripLeft(s)|;
      assert s[..k] == [s[0]] + s[1..][..k - 1];
    }
  }

  /** Python's `rstrip()`. */
  function StripRight(s: string): string
  {
    if |s| > 0 && IsSpace(s[|s| - 1]) then StripRight(s[..|s| - 1]) else s
  }

  /** `rstrip()` removes a run of trailing whitespace and stops at the last other character. */
  lemma {:induction false} StripRightSpec(s: string)
    ensures |StripRight(s)| <= |s| && StripRight(s) == s[..|StripRight(s)|]
    ensures AllSpace(s[|StripRight(s)|..])
    ensures StripRight(s) == [] || !IsSpace(StripRight(s)[|StripRight(s)| - 1])
  {
    if |s| > 0 && IsSpace(s[|s| - 1]) {
      var n := |s| - 1;
      StripRightSpec(s[..n]);
      var k := |StripRight(s)|;
      assert s[k..] == s[..n][k..] + [s[n]];
    }
  }

  /** Python's `strip()`. */
  function Strip(s: string): string
  {
    StripRight(StripLeft(s))
  }

  /** `s.strip().lower()`. */
  function Normalized(s: string): string
  {
    Lower(Strip(s))
  }

  /** The comparison the test handler makes between a submitted and a stored answer. */
  predicate Matches(submitted: string, stored: string)
  {
    Normalized(submitted) == Normalized(stored)
  }

  /** A string that has nothing to strip. */
  predicate IsStripped(s: string)
  {
    s == [] || (!IsSpace(s[0]) && !IsSpace(s[|s| - 1]))
  }

  /** The result of `strip()` has nothing left to strip, and stripping it again changes nothing. */
  lemma StripResult(s: string)
    ensures IsStripped(Strip(s))
    ensures Strip(Strip(s)) == Strip(s)
  {
    var l := StripLeft(s);
    var r := StripRight(l);
    StripLeftSpec(s);
    StripRightSpec(l);
    if r != [] {
      assert r[0] == l[0];
    }
    StrippedIsFixed(r);
  }

  lemma StrippedIsFixed(s: string)
    requires IsStripped(s)
    ensures StripLeft(s) == s && StripRight(s) == s && Strip(s) == s
  {
  }

  /** Lower-casing keeps a stripped string stripped, since it maps spaces to spaces only. */
  lemma LowerKeepsStripped(s: string)
    requires IsStripped(s)
    ensures IsStripped(Lower(s))
  {
  }

  /** Normalising an already normalised answer changes nothing. */
  lemma NormalizedIdempotent(s: string)
    ensures Normalized(Normalized(s)) == Normalized(s)
  {
    var t := Strip(s);
    StripResult(s);
    LowerKeepsStripped(t);
    StrippedIsFixed(Lower(t));
    assert Lower(Lower(t)) == Lower(t);
  }

  /** Leading whitespace is invisible to `lstrip()`. */
  lemma {:induction false} StripLeftPrefix(pre: string, s: string)
    requires AllSpace(pre)
    ensures StripLeft(pre + s) == StripLeft(s)
  {
    if pre != [] {
      assert (pre + s)[1..] == pre[1..] + s;
      StripLeftPrefix(pre[1..], s);
    } else {
      assert pre + s == s;
    }
  }

  /** Trailing whitespace is invisible to `rstrip()`. */
  lemma {:induction false} StripRightSuffix(s: string, post: string)
    requires AllSpace(post)
    ensures StripRight(s + post) == StripRight(s)
  {
    if post != [] {
      var n := |post| - 1;
      assert (s + post)[..|s + post| - 1] == s + post[..n];
      StripRightSuffix(s, post[..n]);
    } else {
      assert s + post == s;
    }
  }

  /** `lstrip()` of a string followed by trailing whitespace. */
  lemma {:induction false} StripLeftAppend(s: string, post: string)
    requires AllSpace(post)
    ensures StripLeft(s) != [] ==> StripLeft(s + post) == StripLeft(s) + post
    ensures StripLeft(s) == [] ==> StripLeft(s + post) == []
  {
    if |s| > 0 && IsSpace(s[0]) {
      assert (s + post)[1..] == s[1..] + post;
      StripLeftAppend(s[1..], post);
    } else if s == [] {
      assert s + post == post;
      StripLeftSpec(post);
    }
  }

  /** Surrounding whitespace does not change what `strip()` returns. */
  lemma StripIgnoresPadding(pre: string, s: string, post: string)
    requires AllSpace(pre) && AllSpace(post)
    ensures Strip(pre + s + post) == Strip(s)
  {
    assert pre + s + post == pre + (s + post);
    StripLeftPrefix(pre, s + post);
    StripLeftAppend(s, post);
    if StripLeft(s) != [] {
      StripRightSuffix(StripLeft(s), post);
    }
  }

  /** A submission padded with whitespace is graded like the bare submission. */
  lemma MatchIgnoresPadding(pre: string, s: string, post: string, stored: string)
    requires AllSpace(pre) && AllSpace(post)
    ensures Matches(pre + s + post, stored) <==> Matches(s, stored)
  {
    StripIgnoresPadding(pre, s, post);
  }

  /**
   * The upper/lower-case letter pairs of the modelled scripts: the basic Latin and
   * Latin-1 letters, the basic Cyrillic block and the Kazakh letters.
   */
  predicate CasePair(upper: char, lower: char)
  {
    ('A' <= upper <= 'Z' && lower as int == upper as int + 32)
    || ('À' <= upper <= 'Þ' && upper != '×' && lower as int == upper as int + 32)
    || ('А' <= upper <= 'Я' && lower as int == upper as int + 32)
    || ('Ѐ' <= upper <= 'Џ' && lower as int == upper as int + 80)
    || (upper, lower) in {('Ғ', 'ғ'), ('Қ', 'қ'), ('Ң', 'ң'), ('Ү', 'ү'),
                          ('Ұ', 'ұ'), ('Һ', 'һ'), ('Ә', 'ә'), ('Ө', 'ө')}
  }

  /** Two characters that are equal or are the two cases of one letter. */
  predicate SameLetter(a: char, b: char)
  {
    a == b || CasePair(a, b) || CasePair(b, a)
  }

  /** Two strings that differ only in the case of their letters. */
  predicate SameUpToCase(a: string, b: string)
  {
    |a| == |b| && forall i :: 0 <= i < |a| ==> SameLetter(a[i], b[i])
  }

  /** Strings that lower-case alike, character by character. */
  predicate LowerAlike(a: string, b: string)
  {
    |a| == |b| && forall i :: 0 <= i < |a| ==> LowerChar(a[i]) == LowerChar(b[i])
  }

  /** Lower-casing maps both letters of a case pair to the lower one. */
  lemma CasePairLowers(upper: char, lower: char)
    requires CasePair(upper, lower)
    ensures LowerChar(upper) == lower && LowerChar(lower) == lower
  {
  }

  /** Strings that differ only in letter case lower-case to the same characters. */
  lemma SameUpToCaseLowerAlike(a: string, b: string)
    requires SameUpToCase(a, b)
    ensures LowerAlike(a, b)
  {
    forall i | 0 <= i < |a| ensures LowerChar(a[i]) == LowerChar(b[i]) {
      if CasePair(a[i], b[i]) {
        CasePairLowers(a[i], b[i]);
      } else if CasePair(b[i], a[i]) {
        CasePairLowers(b[i], a[i]);
      }
    }
  }

  /** `lstrip()` removes the same number of characters from strings that lower-case alike. */
  lemma {:induction false} StripLeftLowerAlike(a: string, b: string)
    requires LowerAlike(a, b)
    ensures LowerAlike(StripLeft(a), StripLeft(b))
  {
    if |a| > 0 {
      assert IsSpace(a[0]) <==> IsSpace(b[0]) by {
        assert LowerChar(a[0]) == LowerChar(b[0]);
      }
      if IsSpace(a[0]) {
        StripLeftLowerAlike(a[1..], b[1..]);
      }
    }
  }

  /** `rstrip()` removes the same number of characters from strings that lower-case alike. */
  lemma {:induction false} StripRightLowerAlike(a: string, b: string)
    requires LowerAlike(a, b)
    ensures LowerAlike(StripRight(a), StripRight(b))
  {
    if |a| > 0 {
      var n := |a| - 1;
      assert IsSpace(a[n]) <==> IsSpace(b[n]) by {
        assert LowerChar(a[n]) == LowerChar(b[n]);
      }
      if IsSpace(a[n]) {
        StripRightLowerAlike(a[..n], b[..n]);
      }
    }
  }

  /** A submission that differs from another only in letter case is graded the same. */
  lemma MatchIgnoresCase(a: string, b: string, stored: string)
    requires SameUpToCase(a, b)
    ensures Matches(a, stored) <==> Matches(b, stored)
  {
    SameUpToCaseLowerAlike(a, b);
    StripLeftLowerAlike(a, b);
    StripRightLowerAlike(StripLeft(a), StripLeft(b));
    assert Normalized(a) == Normalized(b);
  }
}
