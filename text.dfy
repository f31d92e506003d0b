/** ASCII character classes and case mapping used by the cipher. */
module Text {

  /** The letters the cipher plots: A to Z. */
  predicate IsUpperLetter(c: char) { 'A' <= c <= 'Z' }

  predicate IsLowerLetter(c: char) { 'a' <= c <= 'z' }

  /** The characters kept by the key filter `[A-Za-z]`. */
  predicate IsAsciiLetter(c: char) { IsUpperLetter(c) || IsLowerLetter(c) }

  /** `toUpperCase` restricted to ASCII. */
  function ToUpper(c: char): (u: char)
    ensures IsLowerLetter(c) ==> IsUpperLetter(u) && u as int == c as int - 32
    ensures !IsLowerLetter(c) ==> u == c
  {
    if IsLowerLetter(c) then (c as int - 32) as char else c
  }

  /** `toLowerCase` restricted to ASCII. */
  function ToLower(c: char): (l: char)
    ensures IsUpperLetter(c) ==> IsLowerLetter(l) && ToUpper(l) == c
    ensures !IsUpperLetter(c) ==> l == c
  {
    if IsUpperLetter(c) then (c as int + 32) as char else c
  }

  function UpperAll(s: string): (u: string)
    ensures |u| == |s|
    ensures forall i :: 0 <= i < |s| ==> u[i] == ToUpper(s[i])
  {
    seq(|s|, i requires 0 <= i < |s| => ToUpper(s[i]))
  }

  function LowerAll(s: string): (l: string)
    ensures |l| == |s|
    ensures forall i :: 0 <= i < |s| ==> l[i] == ToLower(s[i])
  {
    seq(|s|, i requires 0 <= i < |s| => ToLower(s[i]))
  }

  /** "ABCDEFGHIJKLMNOPQRSTUVWXYZ", written as a comprehension. */
  const Alphabet: string := seq(26, i requires 0 <= i < 26 => ('A' as int + i) as char)

  const AlphabetSet: set<char> := set c | c in Alphabet

  lemma AlphabetIsUpperLetters(c: char)
    ensures c in Alphabet <==> IsUpperLetter(c)
  {
    if IsUpperLetter(c) {
      var i := c as int - 'A' as int;
      assert Alphabet[i] == c;
    }
  }

  /** The whitespace that `\s` matches within ASCII: space, tab, LF, VT, FF, CR. */
  predicate IsSpace(c: char) { c == ' ' || 9 <= c as int <= 13 }

  predicate IsDigit(c: char) { '0' <= c <= '9' }

  /** Index of the first `c` in `s`, or `|s|` when there is none. */
  function Find(s: string, c: char): (i: nat)
    ensures i <= |s|
    ensures forall j :: 0 <= j < i ==> s[j] != c
    ensures i < |s| ==> s[i] == c
  {
    if s == [] then 0 else if s[0] == c then 0 else 1 + Find(s[1..], c)
  }
}
