/** The string normalisation the taxonomy services apply to names: String.prototype.trim and
    String.prototype.toUpperCase. */
module Text {

  /** The characters trim removes: ECMAScript WhiteSpace (tab, vertical tab, form feed,
      zero-width no-break space and the space separators) and LineTerminator. */
  predicate IsWhiteSpace(c: char) {
    || c == '\t' || c == '\n' || c == '\U{000B}' || c == '\U{000C}' || c == '\r' || c == ' '
    || c == '\U{00A0}' || c == '\U{1680}' || ('\U{2000}' <= c <= '\U{200A}')
    || c == '\U{2028}' || c == '\U{2029}' || c == '\U{202F}' || c == '\U{205F}'
    || c == '\U{3000}' || c == '\U{FEFF}'
  }

  /** The number of white-space characters the string starts with. */
  function LeadingWhiteSpace(s: string): (n: nat)
    ensures n <= |s|
    ensures forall k :: 0 <= k < n ==> IsWhiteSpace(s[k])
    ensures n < |s| ==> !IsWhiteSpace(s[n])
  {
    if s != [] && IsWhiteSpace(s[0]) then 1 + LeadingWhiteSpace(s[1..]) else 0
  }

  /** The number of white-space characters the string ends with. */
  function TrailingWhiteSpace(s: string): (n: nat)
    ensures n <= |s|
    ensures forall k :: |s| - n <= k < |s| ==> IsWhiteSpace(s[k])
    ensures n < |s| ==> !IsWhiteSpace(s[|s| - 1 - n])
  {
    if s != [] && IsWhiteSpace(s[|s| - 1]) then 1 + TrailingWhiteSpace(s[..|s| - 1]) else 0
  }

  predicate AllWhiteSpace(s: string) {
    forall k :: 0 <= k < |s| ==> IsWhiteSpace(s[k])
  }

  /** trim(): the string without its leading and trailing white space. */
  function Trim(s: string): (r: string)
    ensures |r| <= |s|
    ensures r == [] <==> AllWhiteSpace(s)
    ensures r != [] ==> !IsWhiteSpace(r[0]) && !IsWhiteSpace(r[|r| - 1])
  {
    var i := LeadingWhiteSpace(s);
    var rest := s[i..];
    var r := rest[..|rest| - TrailingWhiteSpace(rest)];
    TrimSlice(s, i, r);
    r
  }

  /** What trim removes is white space at the two ends and nothing else. */
  lemma TrimRemovesOnlyEnds(s: string)
    ensures exists i ::
      0 <= i <= |s| - |Trim(s)| && s[i..i + |Trim(s)|] == Trim(s) && AllWhiteSpace(s[..i]) && AllWhiteSpace(s[i + |Trim(s)|..])
  {
    var i := LeadingWhiteSpace(s);
    TrimSlice(s, i, Trim(s));
  }

  /** The slice trim keeps is empty exactly when the whole string is white space. */
  lemma TrimSlice(s: string, i: nat, r: string)
    requires i == LeadingWhiteSpace(s)
    requires r == s[i..][..|s[i..]| - TrailingWhiteSpace(s[i..])]
    ensures r == [] <==> AllWhiteSpace(s)
    ensures i <= |s| - |r| && s[i..i + |r|] == r && AllWhiteSpace(s[..i]) && AllWhiteSpace(s[i + |r|..])
  {
    TrimSliceEnds(s, i, r);
    if r == [] {
      assert i == |s|;
    }
  }

  /** The slice trim keeps sits between a white-space prefix and a white-space suffix. */
  lemma TrimSliceEnds(s: string, i: nat, r: string)
    requires i == LeadingWhiteSpace(s)
    requires r == s[i..][..|s[i..]| - TrailingWhiteSpace(s[i..])]
    ensures i <= |s| - |r| && s[i..i + |r|] == r && AllWhiteSpace(s[..i]) && AllWhiteSpace(s[i + |r|..])
  {
    var rest := s[i..];
    var n := |r|;
    assert r == s[i..i + n];
    forall k | 0 <= k < i ensures IsWhiteSpace(s[..i][k]) {
      assert s[..i][k] == s[k];
    }
    var tail := s[i + n..];
    forall k | 0 <= k < |tail| ensures IsWhiteSpace(tail[k]) {
      assert tail[k] == rest[n + k];
    }
  }

  /** toUpperCase on one character (the ASCII letters; see the README for what is left out). */
  function UpperChar(c: char): (u: char)
    ensures IsWhiteSpace(u) <==> IsWhiteSpace(c)
    ensures !('a' <= u <= 'z')
  {
    if 'a' <= c <= 'z' then (c as int - 'a' as int + 'A' as int) as char else c
  }

  /** toUpperCase, character by character. */
  function ToUpper(s: string): string
  {
    seq(|s|, k requires 0 <= k < |s| => UpperChar(s[k]))
  }

  /** The normal form of a subject name: trim(), then toUpperCase(). */
  function Normalise(s: string): string {
    ToUpper(Trim(s))
  }

  lemma ToUpperIdempotent(s: string)
    ensures ToUpper(ToUpper(s)) == ToUpper(s)
  {
    var once := ToUpper(s);
    assert forall k :: 0 <= k < |s| ==> UpperChar(once[k]) == once[k];
  }

  /** A string with no white space at either end is its own trim. */
  lemma TrimOfTrimmed(t: string)
    requires t == [] || (!IsWhiteSpace(t[0]) && !IsWhiteSpace(t[|t| - 1]))
    ensures Trim(t) == t
  {
    assert LeadingWhiteSpace(t) == 0;
    assert t[0..] == t;
    assert TrailingWhiteSpace(t) == 0;
  }

  /** The shape of a normalised name: no white space at either end and no lower-case ASCII letter. */
  predicate IsNormalName(n: string) {
    && (n == [] || (!IsWhiteSpace(n[0]) && !IsWhiteSpace(n[|n| - 1])))
    && forall k :: 0 <= k < |n| ==> !('a' <= n[k] <= 'z')
  }

  lemma NormaliseGivesNormalName(s: string)
    ensures IsNormalName(Normalise(s))
  {
  }

  /** Names of that shape are exactly the fixed points of normalisation. */
  lemma NormalNamesAreFixedPoints(n: string)
    ensures IsNormalName(n) <==> Normalise(n) == n
  {
    if IsNormalName(n) {
      TrimOfTrimmed(n);
      assert forall k :: 0 <= k < |n| ==> UpperChar(n[k]) == n[k];
    }
    if Normalise(n) == n {
      NormaliseGivesNormalName(n);
    }
  }

  /** Normalising a normalised name changes nothing. */
  lemma NormaliseIdempotent(s: string)
    ensures Normalise(Normalise(s)) == Normalise(s)
  {
    NormaliseGivesNormalName(s);
    NormalNamesAreFixedPoints(Normalise(s));
  }

  /** A normalised name is empty exactly when the input is all white space. */
  lemma NormaliseEmpty(s: string)
    ensures Normalise(s) == [] <==> AllWhiteSpace(s)
  {
  }
}
