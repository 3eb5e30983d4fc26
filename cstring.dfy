/** C strings as the scanner sees them: an argv element is the sequence of its
    characters before the terminating NUL, so it never contains '\0'. */
module CStr {

  const NUL: char := '\0'

  /** An argv element or option spec: a NUL-free character sequence. */
  type CString = s: string | NUL !in s

  /** `s[i]` of the NUL-terminated string: the character at `i`, or the
      terminator once `i` reaches the length. */
  function At(s: CString, i: nat): (ch: char)
    ensures ch == NUL <==> i >= |s|
    ensures i < |s| ==> ch == s[i]
  {
    if i < |s| then s[i] else NUL
  }

  /** The test `argv[i][0] == '-' && argv[i][1] != '\0'`: a marker followed by
      at least one more character ("--" included, a lone "-" excluded). */
  predicate OptionLooking(s: string)
  {
    |s| >= 2 && s[0] == '-'
  }

  /** The test, written on a NUL-terminated string, is `OptionLooking`. */
  lemma OptionTest(s: CString)
    ensures (At(s, 0) == '-' && At(s, 1) != NUL) <==> OptionLooking(s)
  {
  }

  /** `strchr(s + from, c)` as an index: the first position at or after
      `from` holding `c`, or `|s|` where strchr returns NULL. */
  function Find(s: string, c: char, from: nat): (k: nat)
    requires from <= |s|
    ensures from <= k <= |s|
    ensures k < |s| ==> s[k] == c
    decreases |s| - from
  {
    if from == |s| then |s|
    else if s[from] == c then from
    else Find(s, c, from + 1)
  }

  /** No position from `from` up to the one `Find` returns holds `c`. */
  lemma {:induction false} FindSkips(s: string, c: char, from: nat)
    requires from <= |s|
    ensures forall j :: from <= j < Find(s, c, from) ==> s[j] != c
    decreases |s| - from
  {
    if from < |s| && s[from] != c {
      FindSkips(s, c, from + 1);
    }
  }
}
