/** The string searches that several files share. */
module Text {

  datatype Option<+T> = None | Some(value: T)

  /** The first position of a character, as std::string::find gives it. */
  function Find(s: string, c: char): (r: Option<nat>)
    ensures r.None? ==> c !in s
    ensures r.Some? ==> r.value < |s| && s[r.value] == c && forall k :: 0 <= k < r.value ==> s[k] != c
  {
    if s == "" then None
    else if s[0] == c then Some(0)
    else
      match Find(s[1..], c)
      case None => None
      case Some(k) => Some(k + 1)
  }

  lemma FindAt(s: string, c: char, e: nat)
    requires e < |s| && s[e] == c && forall k :: 0 <= k < e ==> s[k] != c
    ensures Find(s, c) == Some(e)
  {
  }
}
