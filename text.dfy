/**
 * The string operations of JavaScript that the dashboard relies on:
 * `trim`, the `\s` character class, `toLowerCase`, `includes` and
 * `split(sep)[0]`.
 */
module Text {

  /** The characters that both `String.prototype.trim` and the regular-expression
      class `\s` treat as white space: ECMAScript's WhiteSpace and LineTerminator. */
  predicate IsSpace(c: char) {
    || c == '\t' || c == '\n' || c == '\U{000B}' || c == '\U{000C}' || c == '\r'
    || c == ' ' || c == '\U{00A0}' || c == '\U{1680}'
    || ('\U{2000}' <= c <= '\U{200A}')
    || c == '\U{2028}' || c == '\U{2029}' || c == '\U{202F}' || c == '\U{205F}'
    || c == '\U{3000}' || c == '\U{FEFF}'
  }

  /** Every character of `s` is white space (true of the empty string). */
  predicate AllSpace(s: string) {
    forall k | 0 <= k < |s| :: IsSpace(s[k])
  }

  /** `s` with its longest all-white-space prefix removed. */
  function TrimStart(s: string): string {
    if s != [] && IsSpace(s[0]) then TrimStart(s[1..]) else s
  }

  /** `s` with its longest all-white-space suffix removed. */
  function TrimEnd(s: string): string {
    if s != [] && IsSpace(s[|s| - 1]) then TrimEnd(s[..|s| - 1]) else s
  }

  /** JavaScript's `s.trim()`. */
  function Trim(s: string): string {
    TrimEnd(TrimStart(s))
  }

  /** `TrimStart` drops an all-white-space prefix and stops at the first other character. */
  lemma {:induction false} TrimStartSpec(s: string)
    ensures var r := TrimStart(s);
      && |r| <= |s| && r == s[|s| - |r|..]
      && (r == [] || !IsSpace(r[0]))
      && AllSpace(s[..|s| - |r|])
  {
    if s != [] && IsSpace(s[0]) {
      TrimStartSpec(s[1..]);
    }
  }

  /** `TrimEnd` drops an all-white-space suffix and stops at the last other character. */
  lemma {:induction false} TrimEndSpec(s: string)
    ensures var r := TrimEnd(s);
      && |r| <= |s| && r == s[..|r|]
      && (r == [] || !IsSpace(r[|r| - 1]))
      && AllSpace(s[|r|..])
  {
    if s != [] && IsSpace(s[|s| - 1]) {
      TrimEndSpec(s[..|s| - 1]);
      var r := TrimEnd(s);
      assert forall k | |r| <= k < |s| - 1 :: s[k] == s[..|s| - 1][k];
    }
  }

  /** `trim` keeps a contiguous piece of `s` that neither starts nor ends with
      white space, and everything it drops before and after it is white space. */
  lemma TrimSpec(s: string)
    ensures var r := Trim(s);
      && (r == [] || (!IsSpace(r[0]) && !IsSpace(r[|r| - 1])))
      && exists i :: OccursAt(s, r, i) && AllSpace(s[..i]) && AllSpace(s[i + |r|..])
  {
    TrimStartSpec(s);
    var t := TrimStart(s);
    TrimEndSpec(t);
    var r := TrimEnd(t);
    var i := |s| - |t|;
    assert s[i + |r|..] == t[|r|..];
    assert OccursAt(s, r, i);
  }

  /** A string is falsy after trimming exactly when it holds nothing but white space. */
  lemma TrimEmptyIff(s: string)
    ensures Trim(s) == [] <==> AllSpace(s)
  {
    TrimStartSpec(s);
    var t := TrimStart(s);
    TrimEndSpec(t);
    if Trim(s) == [] {
      assert AllSpace(t[0..]);
      assert s == s[..|s| - |t|] + t;
    } else if AllSpace(s) {
      assert false;
    }
  }

  /** The capital and the small ASCII letters, in alphabetical order. */
  const UpperAlphabet: string := "ABCDEFGHIJKLMNOPQRSTUVWXYZ"
  const LowerAlphabet: string := "abcdefghijklmnopqrstuvwxyz"

  /** `a` and `b` are the same letter, one capital and the other small. */
  predicate CaseVariant(a: char, b: char) {
    exists i | 0 <= i < 26 ::
      || (a == UpperAlphabet[i] && b == LowerAlphabet[i])
      || (a == LowerAlphabet[i] && b == UpperAlphabet[i])
  }

  /** The two alphabets are the letters from `A` and from `a` on, in code-point order. */
  lemma AlphabetCodes()
    ensures |UpperAlphabet| == 26 && |LowerAlphabet| == 26
    ensures forall i | 0 <= i < 26 :: UpperAlphabet[i] as int == 'A' as int + i
    ensures forall i | 0 <= i < 26 :: LowerAlphabet[i] as int == 'a' as int + i
  {
  }

  /** ASCII lower-casing of one character. */
  function LowerChar(c: char): char {
    if 'A' <= c <= 'Z' then (c as int - 'A' as int + 'a' as int) as char else c
  }

  /** `s.toLowerCase()`, restricted to the ASCII letters. */
  function Lower(s: string): string {
    seq(|s|, k requires 0 <= k < |s| => LowerChar(s[k]))
  }

  /** A capital becomes the small letter at the same place in the alphabet,
      and a small letter is kept. */
  lemma LowerCharOfLetter(i: int)
    requires 0 <= i < 26
    ensures LowerChar(UpperAlphabet[i]) == LowerAlphabet[i]
    ensures LowerChar(LowerAlphabet[i]) == LowerAlphabet[i]
  {
    AlphabetAt(i);
  }

  /** A character that is not a capital letter is kept. */
  lemma LowerCharOfOther(c: char)
    requires forall i | 0 <= i < 26 :: c != UpperAlphabet[i]
    ensures LowerChar(c) == c
  {
    if 'A' <= c <= 'Z' {
      AlphabetAt(c as int - 'A' as int);
      assert false;
    }
  }

  /** The letters at place `i` of the two alphabets. */
  lemma AlphabetAt(i: int)
    requires 0 <= i < 26
    ensures UpperAlphabet[i] as int == 'A' as int + i && LowerAlphabet[i] as int == 'a' as int + i
  {
    AlphabetCodes();
  }

  /** Distinct characters lower-case alike only when they are one letter in both cases. */
  lemma LowerCharSameVariant(c: char, d: char)
    requires c != d && LowerChar(c) == LowerChar(d)
    ensures CaseVariant(c, d)
  {
    if 'A' <= c <= 'Z' {
      assert !('A' <= d <= 'Z');
      var i := c as int - 'A' as int;
      AlphabetAt(i);
      assert c == UpperAlphabet[i] && d == LowerAlphabet[i];
    } else {
      assert 'A' <= d <= 'Z';
      var i := d as int - 'A' as int;
      AlphabetAt(i);
      assert c == LowerAlphabet[i] && d == UpperAlphabet[i];
    }
  }

  /** Two characters lower-case alike exactly when they are equal or the same
      letter in opposite cases. */
  lemma LowerCharSameIff(c: char, d: char)
    ensures LowerChar(c) == LowerChar(d) <==> c == d || CaseVariant(c, d)
  {
    if LowerChar(c) == LowerChar(d) && c != d {
      LowerCharSameVariant(c, d);
    }
    if CaseVariant(c, d) {
      var i :| 0 <= i < 26 && ((c == UpperAlphabet[i] && d == LowerAlphabet[i]) || (c == LowerAlphabet[i] && d == UpperAlphabet[i]));
      LowerCharOfLetter(i);
    }
  }

  /** Two strings lower-case alike exactly when they have the same length and
      agree at every position up to the case of a letter. */
  lemma LowerSameIff(s: string, t: string)
    ensures Lower(s) == Lower(t) <==>
              |s| == |t| && forall k | 0 <= k < |s| :: s[k] == t[k] || CaseVariant(s[k], t[k])
  {
    if Lower(s) == Lower(t) {
      forall k | 0 <= k < |s| ensures s[k] == t[k] || CaseVariant(s[k], t[k]) {
        assert Lower(s)[k] == Lower(t)[k];
        LowerCharSameIff(s[k], t[k]);
      }
    }
    if |s| == |t| && forall k | 0 <= k < |s| :: s[k] == t[k] || CaseVariant(s[k], t[k]) {
      forall k | 0 <= k < |s| ensures Lower(s)[k] == Lower(t)[k] {
        LowerCharSameIff(s[k], t[k]);
      }
    }
  }

  /** Lower-casing twice is lower-casing once. */
  lemma LowerIdempotent(s: string)
    ensures Lower(Lower(s)) == Lower(s)
  {
    assert forall k | 0 <= k < |s| :: LowerChar(LowerChar(s[k])) == LowerChar(s[k]);
  }

  /** `p` occurs in `s` starting at index `i`. */
  predicate OccursAt(s: string, p: string, i: int) {
    0 <= i && i + |p| <= |s| && s[i..i + |p|] == p
  }

  /** `s.includes(p)`: scan `s` for a position where `p` is a prefix of the rest. */
  function Includes(s: string, p: string): bool {
    p <= s || (s != [] && Includes(s[1..], p))
  }

  /** `includes` holds exactly when `p` occurs at some index of `s`. */
  lemma {:induction false} IncludesIff(s: string, p: string)
    ensures Includes(s, p) <==> exists i :: OccursAt(s, p, i)
  {
    if s == [] {
      if exists i :: OccursAt(s, p, i) {
        var i :| OccursAt(s, p, i);
        assert p == [];
      }
      if Includes(s, p) {
        assert OccursAt(s, p, 0);
      }
    } else {
      IncludesIff(s[1..], p);
      if p <= s {
        assert OccursAt(s, p, 0);
      } else if Includes(s[1..], p) {
        var i :| OccursAt(s[1..], p, i);
        assert s[1..][i..i + |p|] == s[i + 1..i + 1 + |p|];
        assert OccursAt(s, p, i + 1);
      }
      if exists i :: OccursAt(s, p, i) {
        var i :| OccursAt(s, p, i);
        if i == 0 {
          assert p <= s;
        } else {
          assert s[1..][i - 1..i - 1 + |p|] == s[i..i + |p|];
          assert OccursAt(s[1..], p, i - 1);
        }
      }
    }
  }

  /** `s.split(sep)[0]`: the text before the first `sep`, or all of `s` when it has none. */
  function TextBefore(s: string, sep: char): string {
    if s == [] || s[0] == sep then [] else [s[0]] + TextBefore(s[1..], sep)
  }

  /** `TextBefore` is the longest prefix free of `sep`: what follows it, if anything, is `sep`. */
  lemma {:induction false} TextBeforeSpec(s: string, sep: char)
    ensures var r := TextBefore(s, sep);
      && r <= s
      && sep !in r
      && (|r| < |s| ==> s[|r|] == sep)
  {
    if s != [] && s[0] != sep {
      TextBeforeSpec(s[1..], sep);
    }
  }

  /** Those properties single out its result. */
  lemma TextBeforeUnique(s: string, sep: char, r: string)
    requires r <= s && sep !in r
    requires |r| < |s| ==> s[|r|] == sep
    ensures TextBefore(s, sep) == r
  {
    TextBeforeSpec(s, sep);
    var t := TextBefore(s, sep);
    assert t == s[..|t|] && r == s[..|r|];
  }
}
