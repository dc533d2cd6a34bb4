/** Characters and the `toUpperCase` normalisation the engine applies to
    words and guesses. */
module Letters {

  predicate IsUpperLetter(c: char) {
    'A' <= c <= 'Z'
  }

  predicate IsLowerLetter(c: char) {
    'a' <= c <= 'z'
  }

  /** `toUpperCase` on one character, for the ASCII letters. */
  function UpperChar(c: char): (u: char)
    ensures IsLowerLetter(c) ==> IsUpperLetter(u) && u as int + 32 == c as int
    ensures !IsLowerLetter(c) ==> u == c
  {
    if IsLowerLetter(c) then (c as int - 32) as char else c
  }

  /** `s.toUpperCase()`: the same length, lower-case ASCII letters raised and
      everything else kept. */
  function Upper(s: string): (u: string)
    ensures |u| == |s|
    ensures forall i | 0 <= i < |s| :: u[i] == UpperChar(s[i])
  {
    seq(|s|, i requires 0 <= i < |s| => UpperChar(s[i]))
  }

  /** Upper-casing twice is upper-casing once: a stored word stays as it is. */
  lemma UpperIdempotent(s: string)
    ensures Upper(Upper(s)) == Upper(s)
  {
  }

  /** A word of capital letters is its own upper-case form. */
  lemma UpperOfCapitals(s: string)
    requires forall i | 0 <= i < |s| :: IsUpperLetter(s[i])
    ensures Upper(s) == s
  {
  }

  /** `list.map((w) => w.toUpperCase())`. */
  function UpperAll(ws: seq<string>): (us: seq<string>)
    ensures |us| == |ws|
    ensures forall i | 0 <= i < |ws| :: us[i] == Upper(ws[i]) && |us[i]| == |ws[i]|
  {
    seq(|ws|, i requires 0 <= i < |ws| => Upper(ws[i]))
  }
}
