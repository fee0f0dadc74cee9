/**
 * MaskUtil.maskString: a one-way, shape-preserving obfuscation of a string.
 * Three regex replacements run in sequence, each on the previous output:
 * digits become '*', upper-case letters become 'X', and every remaining
 * character outside 'X', `\s` whitespace and four ASCII punctuation bands
 * becomes 'x'.
 */
module MaskUtil {
  import opened JavaStrings

  /** The class `\d` (ASCII digits). */
  predicate IsDigit(c: char) { '0' <= c <= '9' }

  /** The class `[A-Z]`. */
  predicate IsUpper(c: char) { 'A' <= c <= 'Z' }

  /** The punctuation bands `!-/`, `:-@`, `[-``` and `{-~`. */
  predicate IsSpecial(c: char) {
    ('!' <= c <= '/') || (':' <= c <= '@') || ('[' <= c <= '`') || ('{' <= c <= '~')
  }

  /** The characters the third pass leaves alone: the complement of `[^X\s!-/:-@\[-`{-~]`. */
  predicate IsKept(c: char) { c == 'X' || IsWhitespace(c) || IsSpecial(c) }

  /** Not matched by the third pass's pattern, which is what `x` replaces. */
  predicate IsOrdinary(c: char) { !IsKept(c) }

  /**
   * `matcher(s).replaceAll(repl)` for a pattern that matches one character
   * at a time, the character class `matches`.
   */
  function ReplaceAll(s: string, matches: char -> bool, repl: char): string
  {
    if s == [] then []
    else [if matches(s[0]) then repl else s[0]] + ReplaceAll(s[1..], matches, repl)
  }

  /** Each position is replaced exactly when its character is in the class; the length is kept. */
  lemma {:induction false} ReplaceAllShape(s: string, matches: char -> bool, repl: char)
    ensures var r := ReplaceAll(s, matches, repl);
      |r| == |s| && forall i :: 0 <= i < |s| ==> r[i] == (if matches(s[i]) then repl else s[i])
  {
    if s != [] {
      ReplaceAllShape(s[1..], matches, repl);
      var r := ReplaceAll(s, matches, repl);
      forall i | 1 <= i < |s|
        ensures r[i] == (if matches(s[i]) then repl else s[i])
      {
        assert s[1..][i - 1] == s[i];
      }
    }
  }

  /** What the three passes together do to one character. */
  function MaskChar(c: char): (m: char)
    ensures !IsDigit(m) && (IsUpper(m) ==> m == 'X')
    ensures m == '*' || m == 'X' || m == 'x' || IsWhitespace(m) || IsSpecial(m)
    ensures IsWhitespace(c) || IsSpecial(c) ==> m == c
  {
    if IsDigit(c) then '*'
    else if IsUpper(c) then 'X'
    else if IsKept(c) then c
    else 'x'
  }

  /** MaskUtil.maskString: the three replacement passes, in order. */
  function MaskString(value: string): (r: string)
    ensures |r| == |value|
    ensures forall i :: 0 <= i < |value| ==> r[i] == MaskChar(value[i])
  {
    var noDigits := ReplaceAll(value, IsDigit, '*');
    var noCapitals := ReplaceAll(noDigits, IsUpper, 'X');
    ReplaceAllShape(value, IsDigit, '*');
    ReplaceAllShape(noDigits, IsUpper, 'X');
    ReplaceAllShape(noCapitals, IsOrdinary, 'x');
    ReplaceAll(noCapitals, IsOrdinary, 'x')
  }

  /** `masked` is `s` with some of its positions replaced by their masked character. */
  predicate MaskedFrom(s: string, masked: string) {
    |masked| == |s| &&
    forall i :: 0 <= i < |s| ==> masked[i] == s[i] || masked[i] == MaskChar(s[i])
  }

  lemma MaskCharIdempotent(c: char)
    ensures MaskChar(MaskChar(c)) == MaskChar(c)
  {
  }

  /**
   * The output holds no digit and no letter A-Z other than 'X' (which the
   * second pass itself writes); every character is '*', 'X', 'x', whitespace
   * or punctuation.
   */
  lemma MaskStringAlphabet(s: string)
    ensures forall i :: 0 <= i < |MaskString(s)| ==>
      var c := MaskString(s)[i];
      !IsDigit(c) && (IsUpper(c) ==> c == 'X') &&
      (c == '*' || c == 'X' || c == 'x' || IsWhitespace(c) || IsSpecial(c))
  {
  }

  /** Whitespace and the four punctuation bands pass through unchanged. */
  lemma MaskStringKeepsPunctuation(s: string, i: int)
    requires 0 <= i < |s| && (IsWhitespace(s[i]) || IsSpecial(s[i]))
    ensures MaskString(s)[i] == s[i]
  {
  }

  /** The transform is character-wise, so it distributes over concatenation. */
  lemma MaskStringConcat(a: string, b: string)
    ensures MaskString(a + b) == MaskString(a) + MaskString(b)
  {
    var l, r := MaskString(a + b), MaskString(a) + MaskString(b);
    assert forall i :: 0 <= i < |l| ==> l[i] == r[i];
  }

  /** Masking an already masked string changes nothing. */
  lemma MaskStringIdempotent(s: string)
    ensures MaskString(MaskString(s)) == MaskString(s)
  {
    var m := MaskString(s);
    forall i | 0 <= i < |m|
      ensures MaskString(m)[i] == m[i]
    {
      MaskCharIdempotent(s[i]);
    }
  }

  /** The whole-string mask is one instance of masking some positions. */
  lemma MaskStringMasksAll(s: string)
    ensures MaskedFrom(s, MaskString(s))
  {
  }

  /** Masking some positions and then some more is still masking some positions. */
  lemma MaskedFromTransitive(s: string, t: string, u: string)
    requires MaskedFrom(s, t) && MaskedFrom(t, u)
    ensures MaskedFrom(s, u)
  {
    forall i | 0 <= i < |s|
      ensures u[i] == s[i] || u[i] == MaskChar(s[i])
    {
      MaskCharIdempotent(s[i]);
    }
  }

  /** The worked example: "Ab12" becomes "Xx**". */
  lemma MaskStringExample()
    ensures MaskString("Ab12") == "Xx**"
  {
    var m := MaskString("Ab12");
    assert m[0] == 'X' && m[1] == 'x' && m[2] == '*' && m[3] == '*';
  }
}
