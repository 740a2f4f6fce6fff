/** Character and string helpers that stand for the few Python `str`
    methods the core relies on: `lower`, `endswith` and `rfind`. */
module Text {

  /** Python's `str.lower` on one character, restricted to ASCII letters. */
  function LowerChar(c: char): (d: char)
    ensures !('A' <= d <= 'Z')
    ensures !('A' <= c <= 'Z') ==> d == c
    ensures 'A' <= c <= 'Z' ==> 'a' <= d <= 'z' && d as int - 'a' as int == c as int - 'A' as int
  {
    if 'A' <= c <= 'Z' then (c as int - 'A' as int + 'a' as int) as char else c
  }

  /** Python's `str.lower`: every character lowered in place, length kept. */
  function ToLower(s: string): (r: string)
    ensures |r| == |s|
    ensures forall i :: 0 <= i < |s| ==> r[i] == LowerChar(s[i])
  {
    seq(|s|, i requires 0 <= i < |s| => LowerChar(s[i]))
  }

  /** Lowering commutes with taking a suffix. */
  lemma ToLowerSuffix(s: string, i: nat)
    requires i <= |s|
    ensures ToLower(s[i..]) == ToLower(s)[i..]
  {
  }

  /** Python's `str.endswith` for one suffix. */
  function EndsWith(s: string, suffix: string): (b: bool)
    ensures b <==> (|suffix| <= |s| &&
      forall k :: 0 <= k < |suffix| ==> s[|s| - |suffix| + k] == suffix[k])
  {
    |suffix| <= |s| && s[|s| - |suffix|..] == suffix
  }

  /** Every tail of a string is one of its suffixes. */
  lemma EndsWithTail(s: string, i: nat)
    requires i <= |s|
    ensures EndsWith(s, s[i..])
  {
  }

  /** Python's `str.rfind` for one character: the highest index holding `c`,
      or -1 when `c` does not occur. */
  function LastIndexOf(s: string, c: char): (i: int)
    ensures -1 <= i < |s|
    ensures 0 <= i ==> s[i] == c
    ensures forall j :: i < j < |s| ==> s[j] != c
  {
    if |s| == 0 then -1
    else if s[|s| - 1] == c then |s| - 1
    else LastIndexOf(s[..|s| - 1], c)
  }

  /** The index of a `c` with no `c` after it is the last index of `c`. */
  lemma LastIndexOfIs(s: string, c: char, i: nat)
    requires i < |s| && s[i] == c
    requires forall j :: i < j < |s| ==> s[j] != c
    ensures LastIndexOf(s, c) == i
  {
  }

  /** Lowering a string moves no '.' and no '/', so searching for either finds
      the same index before and after lowering. */
  lemma LastIndexOfToLower(s: string, c: char)
    requires c == '.' || c == '/'
    ensures LastIndexOf(ToLower(s), c) == LastIndexOf(s, c)
  {
  }
}
