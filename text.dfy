/** The string normalisation used for backend names: `QString::trimmed()` followed by
    `QString::toLower()`. */
module Text {
  /** `QChar::isSpace`: the control characters tab to carriage return, the separator
      code points of Unicode, and U+0085. */
  predicate IsSpace(c: char) {
    || c == ' ' || ('\t' <= c <= '\r') || c == '\U{85}' || c == '\U{A0}' || c == '\U{1680}'
    || ('\U{2000}' <= c <= '\U{200A}') || c == '\U{2028}' || c == '\U{2029}'
    || c == '\U{202F}' || c == '\U{205F}' || c == '\U{3000}'
  }

  /** The capitals the model lowers: the ASCII letters only. */
  predicate IsUpper(c: char) {
    'A' <= c <= 'Z'
  }

  /** Lower-casing of one character, restricted to the ASCII capitals; the Unicode case
      mapping of `QChar::toLower` for other capitals is not modelled. */
  function LowerChar(c: char): (r: char)
    ensures !IsUpper(r)
    ensures IsUpper(c) ==> 'a' <= r <= 'z' && r as int - 'a' as int == c as int - 'A' as int
    ensures !IsUpper(c) ==> r == c
  {
    if IsUpper(c) then (c as int + 32) as char else c
  }

  /** `QString::toLower`, character by character with `LowerChar`. */
  function ToLower(s: string): string {
    if |s| == 0 then [] else ToLower(s[..|s| - 1]) + [LowerChar(s[|s| - 1])]
  }

  /** Drops the leading white space. */
  function TrimStart(s: string): string {
    if |s| > 0 && IsSpace(s[0]) then TrimStart(s[1..]) else s
  }

  /** Drops the trailing white space. */
  function TrimEnd(s: string): string {
    if |s| > 0 && IsSpace(s[|s| - 1]) then TrimEnd(s[..|s| - 1]) else s
  }

  /** `QString::trimmed`. */
  function Trim(s: string): string {
    TrimEnd(TrimStart(s))
  }

  /** The normal form of a backend name: white space trimmed, then lower-cased. */
  function Normalize(s: string): string {
    ToLower(Trim(s))
  }

  /** Lower-casing keeps the length and lower-cases each character in place. */
  lemma {:induction false} ToLowerMeaning(s: string)
    ensures |ToLower(s)| == |s| && forall i :: 0 <= i < |s| ==> ToLower(s)[i] == LowerChar(s[i])
  {
    if |s| > 0 {
      ToLowerMeaning(s[..|s| - 1]);
    }
  }

  /** Trimming the front leaves a suffix that does not start with a space, and everything
      dropped is space. */
  lemma {:induction false} TrimStartMeaning(s: string)
    ensures |TrimStart(s)| <= |s| && TrimStart(s) == s[|s| - |TrimStart(s)|..]
    ensures forall i :: 0 <= i < |s| - |TrimStart(s)| ==> IsSpace(s[i])
    ensures |TrimStart(s)| > 0 ==> !IsSpace(TrimStart(s)[0])
  {
    if |s| > 0 && IsSpace(s[0]) {
      TrimStartMeaning(s[1..]);
    }
  }

  /** Trimming the back leaves a prefix that does not end with a space, and everything
      dropped is space. */
  lemma {:induction false} TrimEndMeaning(s: string)
    ensures |TrimEnd(s)| <= |s| && TrimEnd(s) == s[..|TrimEnd(s)|]
    ensures forall i :: |TrimEnd(s)| <= i < |s| ==> IsSpace(s[i])
    ensures |TrimEnd(s)| > 0 ==> !IsSpace(TrimEnd(s)[|TrimEnd(s)| - 1])
  {
    if |s| > 0 && IsSpace(s[|s| - 1]) {
      TrimEndMeaning(s[..|s| - 1]);
    }
  }

  /** `trimmed` keeps the text between the first and the last non-space character, and is
      empty exactly when there is none. */
  lemma TrimMeaning(s: string)
    ensures |Trim(s)| > 0 ==> !IsSpace(Trim(s)[0]) && !IsSpace(Trim(s)[|Trim(s)| - 1])
    ensures |Trim(s)| == 0 <==> forall i :: 0 <= i < |s| ==> IsSpace(s[i])
    ensures |Trim(s)| <= |s|
  {
    var front := TrimStart(s);
    TrimStartMeaning(s);
    TrimEndMeaning(front);
    assert forall i :: |s| - |front| <= i < |s| ==> s[i] == front[i - (|s| - |front|)];
  }

  /** A normalised name has no upper-case letter, does not start or end with a space, and is
      empty exactly when the name is all space. */
  lemma NormalizeMeaning(s: string)
    ensures |Normalize(s)| <= |s|
    ensures forall i :: 0 <= i < |Normalize(s)| ==> !IsUpper(Normalize(s)[i])
    ensures |Normalize(s)| > 0 ==> !IsSpace(Normalize(s)[0]) && !IsSpace(Normalize(s)[|Normalize(s)| - 1])
    ensures |Normalize(s)| == 0 <==> forall i :: 0 <= i < |s| ==> IsSpace(s[i])
  {
    var t := Trim(s);
    TrimMeaning(s);
    ToLowerMeaning(t);
    if |t| > 0 {
      LowerKeepsSpace(t[0]);
      LowerKeepsSpace(t[|t| - 1]);
    }
  }

  /** Lower-casing never turns a space into a non-space or back. */
  lemma LowerKeepsSpace(c: char)
    ensures IsSpace(LowerChar(c)) <==> IsSpace(c)
  {
  }

  /** A name that has no upper-case letter and does not start or end with a space is its
      own normal form. */
  lemma NormalizeFixed(s: string)
    requires forall i :: 0 <= i < |s| ==> !IsUpper(s[i])
    requires |s| > 0 ==> !IsSpace(s[0]) && !IsSpace(s[|s| - 1])
    ensures Normalize(s) == s
  {
    assert TrimStart(s) == s;
    assert TrimEnd(s) == s;
    ToLowerMeaning(s);
    assert ToLower(s) == s;
  }

  /** Normalising twice is normalising once. */
  lemma NormalizeIdempotent(s: string)
    ensures Normalize(Normalize(s)) == Normalize(s)
  {
    NormalizeMeaning(s);
    NormalizeFixed(Normalize(s));
  }
}
