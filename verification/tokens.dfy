/** The first word of Python's argument-less `str.split()`, used to read a
    camera model out of a format's display name. */
module Tokens {
  import opened Wrappers

  /** The characters `str.split()` treats as separators (Python's `str.isspace`). */
  predicate IsSpace(c: char)
  {
    || c == ' '
    || ('\t' <= c <= '\r')
    || ('\U{1C}' <= c <= '\U{1F}')
    || c == '\U{85}' || c == '\U{A0}' || c == '\U{1680}'
    || ('\U{2000}' <= c <= '\U{200A}')
    || c == '\U{2028}' || c == '\U{2029}' || c == '\U{202F}' || c == '\U{205F}' || c == '\U{3000}'
  }

  predicate AllSpace(s: string)
  {
    forall i :: 0 <= i < |s| ==> IsSpace(s[i])
  }

  predicate NoSpace(s: string)
  {
    forall i :: 0 <= i < |s| ==> !IsSpace(s[i])
  }

  /** `s` with its leading separators removed. */
  function SkipSpaces(s: string): (r: string)
    ensures |r| <= |s| && r == s[|s| - |r|..]
    ensures AllSpace(s[..|s| - |r|])
    ensures r == [] || !IsSpace(r[0])
    decreases |s|
  {
    if s != [] && IsSpace(s[0]) then SkipSpaces(s[1..]) else s
  }

  /** The longest prefix of `s` free of separators. */
  function TakeWord(s: string): (r: string)
    ensures |r| <= |s| && r == s[..|r|]
    ensures NoSpace(r)
    ensures |r| == |s| || IsSpace(s[|r|])
    decreases |s|
  {
    if s == [] || IsSpace(s[0]) then [] else [s[0]] + TakeWord(s[1..])
  }

  /** `name.split()[0]`, or `None` when the split is empty. */
  function FirstToken(name: string): (r: Option<string>)
    ensures r.None? <==> AllSpace(name)
    ensures r.Some? ==>
      && r.value != [] && NoSpace(r.value)
      && exists k :: && 0 <= k && k + |r.value| <= |name|
                     && AllSpace(name[..k])
                     && name[k..k + |r.value|] == r.value
                     && (k + |r.value| == |name| || IsSpace(name[k + |r.value|]))
  {
    var rest := SkipSpaces(name);
    if rest == [] then
      assert name[..|name|] == name;
      None
    else
      var k := |name| - |rest|;
      var w := TakeWord(rest);
      assert !AllSpace(name) by { assert !IsSpace(name[k]); }
      assert name[k..k + |w|] == w;
      Some(w)
  }
}
