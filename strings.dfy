/** The two string methods of Python the composer relies on, on `seq<char>`. */
module Strings {

  /** `s.endswith(c)` for a one-character suffix. */
  predicate EndsWith(s: string, c: char) {
    s != [] && s[|s| - 1] == c
  }

  /** `s.rstrip(c)`: the longest prefix of s that does not end with c. */
  function RStrip(s: string, c: char): (r: string)
    ensures |r| <= |s| && r == s[..|r|]
    ensures !EndsWith(r, c)
    ensures forall j :: |r| <= j < |s| ==> s[j] == c
  {
    if EndsWith(s, c) then RStrip(s[..|s| - 1], c) else s
  }
}
