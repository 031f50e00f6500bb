/** The two string methods the search box applies to what the user typed:
    `String.prototype.trim` and `String.prototype.toLowerCase`. */
module Text {

  /** The characters `trim` strips: the WhiteSpace and LineTerminator code
      points of the ECMAScript Language Specification (ECMA-262), that is
      tab, vertical tab, form feed, space, no-break space, the byte order
      mark, the other Unicode "Space_Separator" (Zs) characters, line feed,
      carriage return, and the line and paragraph separators. */
  predicate IsWhitespace(c: char)
  {
    c == '\t' || c == '\n' || c == '\U{000B}' || c == '\U{000C}' || c == '\r' ||
    c == ' ' || c == '\U{00A0}' || c == '\U{1680}' ||
    ('\U{2000}' <= c <= '\U{200A}') ||
    c == '\U{2028}' || c == '\U{2029}' || c == '\U{202F}' || c == '\U{205F}' ||
    c == '\U{3000}' || c == '\U{FEFF}'
  }

  predicate AllWhitespace(s: string)
  {
    forall k :: 0 <= k < |s| ==> IsWhitespace(s[k])
  }

  /** `s` begins and ends with a character `trim` keeps (or is empty). */
  predicate IsTrimmed(s: string)
  {
    |s| == 0 || (!IsWhitespace(s[0]) && !IsWhitespace(s[|s| - 1]))
  }

  /** The first position at or after `i` that does not hold white space,
      or `|s|` when there is none. */
  function SkipForward(s: string, i: nat): (n: nat)
    requires i <= |s|
    ensures i <= n <= |s|
    ensures forall k :: i <= k < n ==> IsWhitespace(s[k])
    ensures n < |s| ==> !IsWhitespace(s[n])
    decreases |s| - i
  {
    if i < |s| && IsWhitespace(s[i]) then SkipForward(s, i + 1) else i
  }

  /** The last position before `j` that does not hold white space, plus one,
      or 0 when there is none. */
  function SkipBackward(s: string, j: nat): (n: nat)
    requires j <= |s|
    ensures n <= j
    ensures forall k :: n <= k < j ==> IsWhitespace(s[k])
    ensures 0 < n ==> !IsWhitespace(s[n - 1])
  {
    if 0 < j && IsWhitespace(s[j - 1]) then SkipBackward(s, j - 1) else j
  }

  /** How many white-space characters `s` starts with. */
  function LeadingSpace(s: string): (n: nat)
    ensures n <= |s|
    ensures forall k :: 0 <= k < n ==> IsWhitespace(s[k])
    ensures n < |s| ==> !IsWhitespace(s[n])
  {
    SkipForward(s, 0)
  }

  /** How many white-space characters `s` ends with. */
  function TrailingSpace(s: string): (n: nat)
    ensures n <= |s|
    ensures forall k :: |s| - n <= k < |s| ==> IsWhitespace(s[k])
    ensures n < |s| ==> !IsWhitespace(s[|s| - 1 - n])
  {
    |s| - SkipBackward(s, |s|)
  }

  /** `String.prototype.trim`: the piece of the input left after cutting
      off its leading and trailing white space. */
  function Trim(s: string): (r: string)
    ensures IsTrimmed(r)
    ensures |r| == 0 <==> AllWhitespace(s)
    ensures var i := LeadingSpace(s);
      i + |r| <= |s| && r == s[i..i + |r|] &&
      (forall k :: 0 <= k < i ==> IsWhitespace(s[k])) &&
      (forall k :: i + |r| <= k < |s| ==> IsWhitespace(s[k]))
  {
    var i := LeadingSpace(s);
    if i == |s| then "" else s[i..|s| - TrailingSpace(s)]
  }

  /** A string that already begins and ends with kept characters is its
      own trim. */
  lemma TrimOfTrimmed(s: string)
    requires IsTrimmed(s)
    ensures Trim(s) == s
  {
    if |s| > 0 {
      assert LeadingSpace(s) == 0 && TrailingSpace(s) == 0;
      assert s[0..|s|] == s;
    }
  }

  /** Trimming twice changes nothing more. */
  lemma TrimIdempotent(s: string)
    ensures Trim(Trim(s)) == Trim(s)
  {
    TrimOfTrimmed(Trim(s));
  }

  predicate IsAsciiUpper(c: char)
  {
    'A' <= c <= 'Z'
  }

  /** Lower-cases one character; outside A to Z it is left alone. */
  function LowerChar(c: char): (d: char)
    ensures !IsAsciiUpper(d)
    ensures IsAsciiUpper(c) ==> d as int == c as int + 32
    ensures !IsAsciiUpper(c) ==> d == c
  {
    if IsAsciiUpper(c) then (c as int + 32) as char else c
  }

  /** `String.prototype.toLowerCase`, for the ASCII letters. */
  function ToLower(s: string): (r: string)
    ensures |r| == |s|
    ensures forall k :: 0 <= k < |s| ==> r[k] == LowerChar(s[k])
    ensures forall k :: 0 <= k < |r| ==> !IsAsciiUpper(r[k])
  {
    seq(|s|, k requires 0 <= k < |s| => LowerChar(s[k]))
  }

  /** Lower-casing twice changes nothing more. */
  lemma ToLowerIdempotent(s: string)
    ensures ToLower(ToLower(s)) == ToLower(s)
  {
  }

  /** A string without upper-case ASCII letters is its own lower case. */
  lemma ToLowerOfLower(s: string)
    requires forall k :: 0 <= k < |s| ==> !IsAsciiUpper(s[k])
    ensures ToLower(s) == s
  {
  }

  /** Lower-casing never turns white space into a letter or back, so it
      commutes with trimming. */
  lemma TrimToLowerCommute(s: string)
    ensures Trim(ToLower(s)) == ToLower(Trim(s))
  {
    var l := ToLower(s);
    LeadingSpaceOfLower(s);
    TrailingSpaceOfLower(s);
    var i := LeadingSpace(s);
    var j := |s| - TrailingSpace(s);
    TrimByCounts(s);
    TrimByCounts(l);
    if i < |s| {
      LowerSlice(s, i, j);
    }
  }

  /** `trim` as the two counts: empty when the input is all white space,
      otherwise the piece between the leading and the trailing run. */
  lemma TrimByCounts(s: string)
    ensures LeadingSpace(s) == |s| ==> Trim(s) == ""
    ensures LeadingSpace(s) < |s| ==>
              LeadingSpace(s) <= |s| - TrailingSpace(s) &&
              Trim(s) == s[LeadingSpace(s)..|s| - TrailingSpace(s)]
  {
  }

  /** What `trim` cut off: only white space before the trimmed piece, and
      only white space after it. */
  lemma TrimSurround(s: string)
    ensures var i := LeadingSpace(s);
      i + |Trim(s)| <= |s| && Trim(s) == s[i..i + |Trim(s)|] &&
      AllWhitespace(s[..i]) && AllWhitespace(s[i + |Trim(s)|..])
  {
    var i := LeadingSpace(s);
    var j := i + |Trim(s)|;
    assert AllWhitespace(s[..i]) by {
      forall k | 0 <= k < i
        ensures IsWhitespace(s[..i][k])
      {
        assert s[..i][k] == s[k];
      }
    }
    assert AllWhitespace(s[j..]) by {
      forall k | 0 <= k < |s| - j
        ensures IsWhitespace(s[j..][k])
      {
        assert s[j..][k] == s[j + k];
      }
    }
  }

  /** Lower-casing keeps the white space, character by character. */
  lemma LowerKeepsWhitespace(c: char)
    ensures IsWhitespace(LowerChar(c)) <==> IsWhitespace(c)
  {
  }

  lemma LowerSlice(s: string, i: nat, j: nat)
    requires i <= j <= |s|
    ensures ToLower(s)[i..j] == ToLower(s[i..j])
  {
  }

  lemma {:induction false} SkipForwardOfLower(s: string, i: nat)
    requires i <= |s|
    ensures SkipForward(ToLower(s), i) == SkipForward(s, i)
    decreases |s| - i
  {
    if i < |s| {
      LowerKeepsWhitespace(s[i]);
      SkipForwardOfLower(s, i + 1);
    }
  }

  lemma {:induction false} SkipBackwardOfLower(s: string, j: nat)
    requires j <= |s|
    ensures SkipBackward(ToLower(s), j) == SkipBackward(s, j)
  {
    if 0 < j {
      LowerKeepsWhitespace(s[j - 1]);
      SkipBackwardOfLower(s, j - 1);
    }
  }

  lemma LeadingSpaceOfLower(s: string)
    ensures LeadingSpace(ToLower(s)) == LeadingSpace(s)
  {
    SkipForwardOfLower(s, 0);
  }

  lemma TrailingSpaceOfLower(s: string)
    ensures TrailingSpace(ToLower(s)) == TrailingSpace(s)
  {
    SkipBackwardOfLower(s, |s|);
  }

  lemma LowerKeepsTrimmed(s: string)
    ensures IsTrimmed(ToLower(s)) <==> IsTrimmed(s)
  {
  }
}
