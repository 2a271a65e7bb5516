/** C strings, of bytes or of characters. */
module CStrings {

  /** What `strlen` and `%s` see of a string: what comes before its first NUL. */
  function CString<T(==)>(s: seq<T>, nul: T): (r: seq<T>)
    ensures r == s <==> nul !in s
    ensures nul !in r
  {
    if s == [] || s[0] == nul then [] else [s[0]] + CString(s[1..], nul)
  }

  /** It is the beginning of the string up to the first NUL, or all of it. */
  lemma {:induction false} CStringIs<T>(s: seq<T>, nul: T)
    ensures var r := CString(s, nul); r <= s && (r == s || s[|r|] == nul) && forall k | 0 <= k < |r| :: s[k] != nul
  {
    if s != [] && s[0] != nul { CStringIs(s[1..], nul); }
  }
}
