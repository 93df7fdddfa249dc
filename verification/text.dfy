/**
 * The two string operations the skills filter relies on: `str.lower()` and
 * Python's substring test `pattern in text`.
 */
module Text {

  predicate IsUpper(c: char) {
    'A' <= c <= 'Z'
  }

  /** Lower-cases one character; only the ASCII letters A-Z are mapped. */
  function LowerChar(c: char): (d: char)
    ensures !IsUpper(d)
    ensures !IsUpper(c) ==> d == c
    ensures IsUpper(c) ==> 'a' <= d <= 'z' && d as int - c as int == 32
  {
    if IsUpper(c) then (c as int + 32) as char else c
  }

  /** `s.lower()`: the same length, each character lower-cased. */
  function Lower(s: string): (r: string)
    ensures |r| == |s|
    ensures forall i :: 0 <= i < |s| ==> r[i] == LowerChar(s[i])
    ensures forall i :: 0 <= i < |r| ==> !IsUpper(r[i])
  {
    seq(|s|, i requires 0 <= i < |s| => LowerChar(s[i]))
  }

  /** A string with no upper-case letter is its own lower-case form. */
  lemma LowerOfLowerIsIdentity(s: string)
    requires forall i :: 0 <= i < |s| ==> !IsUpper(s[i])
    ensures Lower(s) == s
  {
  }

  /** Lower-casing twice is lower-casing once. */
  lemma LowerIdempotent(s: string)
    ensures Lower(Lower(s)) == Lower(s)
  {
    LowerOfLowerIsIdentity(Lower(s));
  }

  predicate StartsWith(text: string, pattern: string) {
    |pattern| <= |text| && text[..|pattern|] == pattern
  }

  /**
   * Python's `pattern in text` on strings: true when `pattern` occurs at some
   * position of `text`; the empty pattern occurs in every text.
   */
  predicate Contains(text: string, pattern: string)
    ensures Contains(text, pattern) ==> |pattern| <= |text|
    decreases |text|
  {
    StartsWith(text, pattern) || (|text| > 0 && Contains(text[1..], pattern))
  }

  /** `pattern` occurs in `text` starting at index `i`. */
  ghost predicate OccursAt(text: string, pattern: string, i: int) {
    0 <= i && i + |pattern| <= |text| && text[i..i + |pattern|] == pattern
  }

  /** The recursive test agrees with the positional definition of a substring. */
  lemma {:induction false} ContainsIffOccurs(text: string, pattern: string)
    ensures Contains(text, pattern) <==> exists i :: OccursAt(text, pattern, i)
    decreases |text|
  {
    if Contains(text, pattern) {
      if StartsWith(text, pattern) {
        assert OccursAt(text, pattern, 0);
      } else {
        ContainsIffOccurs(text[1..], pattern);
        var i :| OccursAt(text[1..], pattern, i);
        assert text[1..][i..i + |pattern|] == text[i + 1..i + 1 + |pattern|];
        assert OccursAt(text, pattern, i + 1);
      }
    }
    if exists i :: OccursAt(text, pattern, i) {
      var i :| OccursAt(text, pattern, i);
      if i == 0 {
        assert StartsWith(text, pattern);
      } else {
        assert text[1..][i - 1..i - 1 + |pattern|] == text[i..i + |pattern|];
        assert OccursAt(text[1..], pattern, i - 1);
        ContainsIffOccurs(text[1..], pattern);
      }
    }
  }

  /** Every character of a pattern found in a text is a character of that text. */
  lemma ContainedCharsOccur(text: string, pattern: string, k: int)
    requires Contains(text, pattern)
    requires 0 <= k < |pattern|
    ensures pattern[k] in text
  {
    ContainsIffOccurs(text, pattern);
    var i :| OccursAt(text, pattern, i);
    assert text[i..i + |pattern|][k] == text[i + k];
  }

  /**
   * Only patterns without upper-case letters can be found in a lower-cased
   * text.
   */
  lemma UpperPatternNotInLowered(text: string, pattern: string, k: int)
    requires 0 <= k < |pattern| && IsUpper(pattern[k])
    ensures !Contains(Lower(text), pattern)
  {
    if Contains(Lower(text), pattern) {
      ContainedCharsOccur(Lower(text), pattern, k);
      assert false;
    }
  }
}
