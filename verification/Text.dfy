/** Substring search: `std::string::find`. */
module Text {
  import opened Results

  /** What follows the first occurrence of `pat`, if there is one. */
  function After(s: string, pat: string): Option<string> {
    if |s| < |pat| then None
    else if s == [] || s[..|pat|] == pat then Some(s[|pat|..])
    else After(s[1..], pat)
  }

  /** `s.find(pat, from)`. */
  function FindFrom(s: string, pat: string, from: nat): (r: Option<nat>)
    ensures r.Some? ==> from <= r.value <= |s| - |pat|
    decreases |s| - from
  {
    if from + |pat| > |s| then None
    else if s[from..from + |pat|] == pat then Some(from)
    else FindFrom(s, pat, from + 1)
  }

  lemma {:induction false} FindFromIsAfter(s: string, pat: string, from: nat)
    requires from <= |s|
    ensures FindFrom(s, pat, from).None? ==> After(s[from..], pat) == None
    ensures FindFrom(s, pat, from).Some? ==> After(s[from..], pat) == Some(s[FindFrom(s, pat, from).value + |pat|..])
    decreases |s| - from
  {
    if from + |pat| <= |s| {
      assert s[from..][..|pat|] == s[from..from + |pat|];
      assert s[from..][|pat|..] == s[from + |pat|..];
      if s[from..from + |pat|] != pat {
        assert s[from..][1..] == s[from + 1..];
        FindFromIsAfter(s, pat, from + 1);
      }
    }
  }

  lemma AfterShort(s: string, pat: string)
    requires |s| < |pat|
    ensures After(s, pat) == None
  {
  }

  predicate StandsAt(s: string, pat: string, i: nat) {
    i + |pat| <= |s| && s[i..i + |pat|] == pat
  }

  /** The first place from `from` on where the pattern stands, if there is one. */
  lemma {:induction false} FindFromIsFirst(s: string, pat: string, from: nat)
    ensures FindFrom(s, pat, from).Some? ==> FindFrom(s, pat, from).value >= from && StandsAt(s, pat, FindFrom(s, pat, from).value)
    ensures forall i: nat :: from <= i && StandsAt(s, pat, i) ==> FindFrom(s, pat, from).Some? && FindFrom(s, pat, from).value <= i
    decreases |s| - from
  {
    if from + |pat| <= |s| && s[from..from + |pat|] != pat {
      FindFromIsFirst(s, pat, from + 1);
    }
  }
}
