/** The string operations the registry relies on: lower-casing, trimming and
    case-insensitive comparison. Java applies Unicode case mappings; this model
    folds the ASCII letters only.
 */
module Text {

  /** The lower-case form of an ASCII capital letter; every other character is
      its own lower-case form. */
  function LowerChar(c: char): (d: char)
    ensures 'A' <= c <= 'Z' ==> 'a' <= d <= 'z' && d as int - c as int == 32
    ensures !('A' <= c <= 'Z') ==> d == c
  {
    if 'A' <= c <= 'Z' then (c as int + 32) as char else c
  }

  /** The string with every ASCII capital lower-cased (`String.toLowerCase`). */
  function ToLower(s: string): (r: string)
    ensures |r| == |s|
    ensures forall i :: 0 <= i < |s| ==> r[i] == LowerChar(s[i])
  {
    seq(|s|, i requires 0 <= i < |s| => LowerChar(s[i]))
  }

  /** Lower-casing twice changes nothing more than lower-casing once. */
  lemma ToLowerIdempotent(s: string)
    ensures ToLower(ToLower(s)) == ToLower(s)
  {
  }

  /** A lower-cased string holds no ASCII capital. */
  lemma ToLowerHasNoCapitals(s: string)
    ensures forall i :: 0 <= i < |ToLower(s)| ==> !('A' <= ToLower(s)[i] <= 'Z')
  {
  }

  /** The characters `String.trim` strips: every code point up to the space. */
  predicate IsTrimmable(c: char) {
    c <= ' '
  }

  /** The string without its leading trimmable characters. */
  function TrimStart(s: string): (r: string)
    ensures |r| <= |s| && r == s[|s| - |r|..]
    ensures forall i :: 0 <= i < |s| - |r| ==> IsTrimmable(s[i])
    ensures r != [] ==> !IsTrimmable(r[0])
    decreases |s|
  {
    if s != [] && IsTrimmable(s[0]) then TrimStart(s[1..]) else s
  }

  /** The string without its trailing trimmable characters. */
  function TrimEnd(s: string): (r: string)
    ensures |r| <= |s| && r == s[..|r|]
    ensures forall i :: |r| <= i < |s| ==> IsTrimmable(s[i])
    ensures r != [] ==> !IsTrimmable(r[|r| - 1])
    decreases |s|
  {
    if s != [] && IsTrimmable(s[|s| - 1]) then TrimEnd(s[..|s| - 1]) else s
  }

  /** How many leading characters `String.trim` strips. */
  function LeadingTrimmable(s: string): (n: nat)
    ensures n <= |s|
    ensures forall i :: 0 <= i < n ==> IsTrimmable(s[i])
    ensures n < |s| ==> !IsTrimmable(s[n])
  {
    |s| - |TrimStart(s)|
  }

  /** `String.trim`: the string without leading and trailing trimmable
      characters; what remains is one contiguous slice of the input. */
  function Trim(s: string): (r: string)
    ensures LeadingTrimmable(s) + |r| <= |s|
    ensures r == s[LeadingTrimmable(s)..LeadingTrimmable(s) + |r|]
    ensures r != [] ==> !IsTrimmable(r[0]) && !IsTrimmable(r[|r| - 1])
    ensures forall i :: LeadingTrimmable(s) + |r| <= i < |s| ==> IsTrimmable(s[i])
  {
    TrimEnd(TrimStart(s))
  }

  /** A string with nothing to strip at either end is its own trim. */
  lemma TrimOfTrimmed(s: string)
    requires s != [] ==> !IsTrimmable(s[0]) && !IsTrimmable(s[|s| - 1])
    ensures Trim(s) == s
  {
  }

  /** `String.equalsIgnoreCase`: same length and the same characters up to case. */
  predicate EqualsIgnoreCase(a: string, b: string) {
    |a| == |b| && forall i :: 0 <= i < |a| ==> LowerChar(a[i]) == LowerChar(b[i])
  }

  /** Two strings are equal up to case exactly when their lower-case forms agree. */
  lemma EqualsIgnoreCaseIffSameLower(a: string, b: string)
    ensures EqualsIgnoreCase(a, b) <==> ToLower(a) == ToLower(b)
  {
    if ToLower(a) == ToLower(b) {
      assert |a| == |b|;
      forall i | 0 <= i < |a|
        ensures LowerChar(a[i]) == LowerChar(b[i])
      {
        assert ToLower(a)[i] == ToLower(b)[i];
      }
    }
  }

  /** A string and its lower-case form are equal up to case. */
  lemma EqualsIgnoreCaseToLower(s: string)
    ensures EqualsIgnoreCase(ToLower(s), s)
  {
  }

  /** The key that `String.compareToIgnoreCase` orders strings by: the code
      points of the case-folded characters, compared lexicographically. */
  function IgnoreCaseKey(s: string): (k: seq<int>)
    ensures |k| == |s|
    ensures forall i :: 0 <= i < |s| ==> k[i] == LowerChar(s[i]) as int
  {
    seq(|s|, i requires 0 <= i < |s| => LowerChar(s[i]) as int)
  }

  /** Strings equal up to case have the same ordering key, so the sort treats
      them as ties. */
  lemma IgnoreCaseKeyRespectsCase(a: string, b: string)
    requires EqualsIgnoreCase(a, b)
    ensures IgnoreCaseKey(a) == IgnoreCaseKey(b)
  {
  }
}
