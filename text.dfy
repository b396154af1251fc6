/**
 * The text primitives the program relies on: String.Trim (which removes the characters that
 * Char.IsWhiteSpace accepts), String.IsNullOrWhiteSpace, String.ToLower, and the parse core
 * of the non-empty text reader LeerTextoNoVacio.
 */
module Text {
  import opened Optional

  /** Char.IsWhiteSpace: U+0009..U+000D, U+0020, U+0085, U+00A0 and the Unicode space,
      line and paragraph separators. */
  predicate IsWhiteSpace(c: char)
  {
    || ('\t' <= c <= '\r')
    || c == ' '
    || c == '\U{85}'
    || c == '\U{A0}'
    || c == '\U{1680}'
    || ('\U{2000}' <= c <= '\U{200A}')
    || c == '\U{2028}'
    || c == '\U{2029}'
    || c == '\U{202F}'
    || c == '\U{205F}'
    || c == '\U{3000}'
  }

  predicate AllWhiteSpace(s: string)
  {
    forall i :: 0 <= i < |s| ==> IsWhiteSpace(s[i])
  }

  /** The length of the longest prefix of `s` whose characters all satisfy `p`. */
  function Span(s: string, p: char -> bool): (n: nat)
    ensures n <= |s|
    ensures forall i :: 0 <= i < n ==> p(s[i])
    ensures n < |s| ==> !p(s[n])
  {
    if |s| > 0 && p(s[0]) then 1 + Span(s[1..], p) else 0
  }

  /** The number of white-space characters `s` starts with: the first character after them is
      not white space, and LeadingWhite shows that all of them are. */
  function Leading(s: string): (n: nat)
    ensures n <= |s|
    ensures n < |s| ==> !IsWhiteSpace(s[n])
  {
    if |s| > 0 && IsWhiteSpace(s[0]) then 1 + Leading(s[1..]) else 0
  }

  lemma {:induction false} LeadingWhite(s: string)
    ensures forall i :: 0 <= i < Leading(s) ==> IsWhiteSpace(s[i])
  {
    if |s| > 0 && IsWhiteSpace(s[0]) {
      LeadingWhite(s[1..]);
      forall i | 0 < i < Leading(s) ensures IsWhiteSpace(s[i]) {
        assert s[i] == s[1..][i - 1];
      }
    }
  }

  /** The number of white-space characters `s` ends with: the last character before them is not
      white space, and TrailingWhite shows that all of them are. */
  function Trailing(s: string): (n: nat)
    ensures n <= |s|
    ensures n < |s| ==> !IsWhiteSpace(s[|s| - 1 - n])
  {
    if |s| > 0 && IsWhiteSpace(s[|s| - 1]) then 1 + Trailing(s[..|s| - 1]) else 0
  }

  lemma {:induction false} TrailingWhite(s: string)
    ensures forall i :: |s| - Trailing(s) <= i < |s| ==> IsWhiteSpace(s[i])
  {
    if |s| > 0 && IsWhiteSpace(s[|s| - 1]) {
      TrailingWhite(s[..|s| - 1]);
      forall i | |s| - Trailing(s) <= i < |s| - 1 ensures IsWhiteSpace(s[i]) {
        assert s[i] == s[..|s| - 1][i];
      }
    }
  }

  /** String.Trim: drop the leading and the trailing white space. */
  function Trim(s: string): (r: string)
    ensures r == [] <==> AllWhiteSpace(s)
    ensures r != [] ==> !IsWhiteSpace(r[0]) && !IsWhiteSpace(r[|r| - 1])
  {
    var a := Leading(s);
    LeadingWhite(s);
    if a == |s| then []
    else
      var b := Trailing(s);
      TrailingWhite(s);
      assert a < |s| - b;
      s[a..|s| - b]
  }

  /** The trimmed text is an infix of the input, and what lies around it is white space. */
  lemma TrimInfix(s: string) returns (i: nat, j: nat)
    ensures i <= j <= |s| && Trim(s) == s[i..j]
    ensures AllWhiteSpace(s[..i]) && AllWhiteSpace(s[j..])
  {
    var a := Leading(s);
    LeadingWhite(s);
    TrailingWhite(s);
    if a == |s| {
      i, j := |s|, |s|;
    } else {
      i, j := a, |s| - Trailing(s);
      assert IsWhiteSpace(s[|s| - 1 - (|s| - j)]) ==> false;
    }
  }

  /** Trim is determined by its specification: surrounding a text that neither starts nor ends
      with white space by white space and trimming again gives that text back. */
  lemma TrimPadded(w1: string, t: string, w2: string)
    requires AllWhiteSpace(w1) && AllWhiteSpace(w2)
    requires t == [] || (!IsWhiteSpace(t[0]) && !IsWhiteSpace(t[|t| - 1]))
    ensures Trim(w1 + t + w2) == t
  {
    var s := w1 + t + w2;
    if t == [] {
      assert AllWhiteSpace(s) by {
        forall i | 0 <= i < |s| ensures IsWhiteSpace(s[i]) {
          if i < |w1| { assert s[i] == w1[i]; } else { assert s[i] == w2[i - |w1|]; }
        }
      }
    } else {
      var a := Leading(s);
      var b := Trailing(s);
      LeadingWhite(s);
      TrailingWhite(s);
      assert s[|w1|] == t[0];
      assert s[|w1| + |t| - 1] == t[|t| - 1];
      assert a == |w1|;
      assert b == |w2|;
      assert s[a..|s| - b] == t;
    }
  }

  lemma TrimIdempotent(s: string)
    ensures Trim(Trim(s)) == Trim(s)
  {
    var t := Trim(s);
    TrimPadded([], t, []);
    assert [] + t + [] == t;
  }

  /** String.IsNullOrWhiteSpace. */
  predicate IsNullOrWhiteSpace(t: Line)
  {
    match t
    case None => true
    case Some(s) => AllWhiteSpace(s)
  }

  /** A value that LeerTextoNoVacio can return: non-empty, and neither starting nor ending with
      white space (see IsFieldTextMeans). */
  predicate IsFieldText(t: string)
  {
    t != [] && !IsWhiteSpace(t[0]) && !IsWhiteSpace(t[|t| - 1])
  }

  /** The field texts are exactly the texts that are not blank and that trimming leaves alone. */
  lemma IsFieldTextMeans(t: string)
    ensures IsFieldText(t) <==> t != [] && !AllWhiteSpace(t) && Trim(t) == t
  {
    if IsFieldText(t) {
      TrimPadded([], t, []);
      assert [] + t + [] == t;
    }
  }

  /** One attempt of LeerTextoNoVacio: trim the line (an absent line reads as ""), refuse blank text. */
  function ReadText(line: Line): (r: Option<string>)
    ensures r.None? <==> AllWhiteSpace(OrEmpty(line))
    ensures r.Some? ==> r.value == Trim(OrEmpty(line)) && IsFieldText(r.value)
  {
    var t := Trim(OrEmpty(line));
    if !IsNullOrWhiteSpace(Some(t)) then
      Some(t)
    else
      None
  }

  /** Lower-casing of one character; only A..Z change (see the README for non-ASCII letters). */
  function ToLowerChar(c: char): char
  {
    if 'A' <= c <= 'Z' then (c as int - 'A' as int + 'a' as int) as char else c
  }

  /** String.ToLower, character by character. */
  function ToLower(s: string): string
  {
    seq(|s|, i requires 0 <= i < |s| => ToLowerChar(s[i]))
  }
}
