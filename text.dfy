/** Python's str.strip: removing a run of chosen characters from both ends. */
module Text {

  /** The characters for which Python's str.isspace() holds, which are the
      ones str.strip() removes when it is given no argument. */
  const PyWhitespace: set<char> := {
    '\t', '\n', '\U{B}', '\U{C}', '\r',
    '\U{1C}', '\U{1D}', '\U{1E}', '\U{1F}', ' ',
    '\U{85}', '\U{A0}', '\U{1680}',
    '\U{2000}', '\U{2001}', '\U{2002}', '\U{2003}', '\U{2004}', '\U{2005}',
    '\U{2006}', '\U{2007}', '\U{2008}', '\U{2009}', '\U{200A}',
    '\U{2028}', '\U{2029}', '\U{202F}', '\U{205F}', '\U{3000}'
  }

  /** The characters that strip('\x00') removes. */
  const Nul: set<char> := {'\0'}

  /** The length of the longest prefix of s made of characters in cs. */
  function LeadingRun(s: string, cs: set<char>): (n: nat)
    ensures n <= |s|
    ensures forall k :: 0 <= k < n ==> s[k] in cs
    ensures n < |s| ==> s[n] !in cs
    decreases |s|
  {
    if s == [] || s[0] !in cs then 0 else 1 + LeadingRun(s[1..], cs)
  }

  /** The length of the longest suffix of s made of characters in cs. */
  function TrailingRun(s: string, cs: set<char>): (n: nat)
    ensures n <= |s|
    ensures forall k :: |s| - n <= k < |s| ==> s[k] in cs
    ensures n < |s| ==> s[|s| - 1 - n] !in cs
    decreases |s|
  {
    if s == [] || s[|s| - 1] !in cs then 0 else 1 + TrailingRun(s[..|s| - 1], cs)
  }

  /** s.strip(cs): the prefix of characters in cs is removed first, then the
      suffix of what remains. The result is the stretch of s that starts at
      LeadingRun(s, cs), everything around it is in cs, and it neither starts
      nor ends with a character of cs. */
  function Strip(s: string, cs: set<char>): (r: string)
    ensures var i := LeadingRun(s, cs);
            i + |r| <= |s| && r == s[i..i + |r|]
            && (forall k :: i + |r| <= k < |s| ==> s[k] in cs)
    ensures r != [] ==> r[0] !in cs && r[|r| - 1] !in cs
  {
    var rest := s[LeadingRun(s, cs)..];
    rest[..|rest| - TrailingRun(rest, cs)]
  }

  /** A string that neither starts nor ends with a character of cs is left as it is. */
  lemma StripKeeps(s: string, cs: set<char>)
    requires s != [] && s[0] !in cs && s[|s| - 1] !in cs
    ensures Strip(s, cs) == s
  {
    assert LeadingRun(s, cs) == 0;
  }

  /** When s begins with k1 and ends with k2 characters of cs, stripping
      shortens it by at least k1 + k2, or empties it. */
  lemma StripShrinks(s: string, cs: set<char>, k1: nat, k2: nat)
    requires k1 <= |s| && k2 <= |s|
    requires forall k :: 0 <= k < k1 ==> s[k] in cs
    requires forall k :: |s| - k2 <= k < |s| ==> s[k] in cs
    ensures Strip(s, cs) == [] || |Strip(s, cs)| + k1 + k2 <= |s|
  {
    var i := LeadingRun(s, cs);
    var r := Strip(s, cs);
    if r != [] {
      assert i < |s| ==> s[i] !in cs;
      assert r[|r| - 1] == s[i + |r| - 1];
    }
  }
}
