/** The cipher key: normalisation, statistics, column lookup and shuffling. */
module KeyModel {
  import opened Text

  const MaxKeyLength: nat := 1000

  /** What every stored key satisfies: only A-Z, at most 1000 letters. */
  predicate IsNormalizedKey(k: string)
  {
    |k| <= MaxKeyLength && forall i :: 0 <= i < |k| ==> IsUpperLetter(k[i])
  }

  /** The input with every character outside `[A-Za-z]` removed, order kept. */
  function LettersOnly(s: string): (r: string)
    ensures |r| <= |s|
    ensures forall i :: 0 <= i < |r| ==> IsAsciiLetter(r[i])
  {
    if s == [] then []
    else (if IsAsciiLetter(s[0]) then [s[0]] else []) + LettersOnly(s[1..])
  }

  /** normalizeKey: strip non-letters, upper-case, keep the first 1000. */
  function NormalizeKey(raw: string): (k: string)
    ensures IsNormalizedKey(k)
    ensures |k| == if |LettersOnly(raw)| > MaxKeyLength then MaxKeyLength else |LettersOnly(raw)|
    ensures k == UpperAll(LettersOnly(raw))[..|k|]
  {
    var sanitized := UpperAll(LettersOnly(raw));
    if |sanitized| > MaxKeyLength then sanitized[..MaxKeyLength] else sanitized
  }

  lemma {:induction false} LettersOnlyOfLetters(s: string)
    requires forall i :: 0 <= i < |s| ==> IsAsciiLetter(s[i])
    ensures LettersOnly(s) == s
  {
    if s != [] {
      LettersOnlyOfLetters(s[1..]);
    }
  }

  /** A normalised key is a fixed point of normalisation. */
  lemma NormalizeKeyFixesKeys(k: string)
    requires IsNormalizedKey(k)
    ensures NormalizeKey(k) == k
  {
    LettersOnlyOfLetters(k);
    assert UpperAll(k) == k;
  }

  /** normalizeKey is idempotent. */
  lemma NormalizeKeyIdempotent(raw: string)
    ensures NormalizeKey(NormalizeKey(raw)) == NormalizeKey(raw)
  {
    NormalizeKeyFixesKeys(NormalizeKey(raw));
  }

  // ---------------------------------------------------------------------
  // keyStats

  datatype Stats = Stats(len: nat, dup: nat, miss: nat)

  function Occurrences(s: string, c: char): nat
  {
    if s == [] then 0 else (if s[0] == c then 1 else 0) + Occurrences(s[1..], c)
  }

  function Distinct(s: string): set<char>
  {
    set c | c in s
  }

  /** Number of positions of `s` whose character lies in `d`. */
  function CountIn(s: string, d: set<char>): nat
  {
    if s == [] then 0 else (if s[0] in d then 1 else 0) + CountIn(s[1..], d)
  }

  /** Letters of `alpha` not in `present`, in order (the `filter` over the alphabet). */
  function MissingFrom(alpha: string, present: set<char>): (r: string)
    ensures |r| <= |alpha|
  {
    if alpha == [] then []
    else (if alpha[0] in present then [] else [alpha[0]]) + MissingFrom(alpha[1..], present)
  }

  lemma {:induction false} OccurrencesAppend(s: string, c: char, d: char)
    ensures Occurrences(s + [c], d) == Occurrences(s, d) + (if c == d then 1 else 0)
  {
    if s != [] {
      assert (s + [c])[1..] == s[1..] + [c];
      OccurrencesAppend(s[1..], c, d);
    }
  }

  lemma {:induction false} OccurrencesAbsent(s: string, c: char)
    requires c !in s
    ensures Occurrences(s, c) == 0
  {
    if s != [] {
      OccurrencesAbsent(s[1..], c);
    }
  }

  lemma {:induction false} CountInNone(s: string)
    ensures CountIn(s, {}) == 0
  {
    if s != [] {
      CountInNone(s[1..]);
    }
  }

  lemma {:induction false} OccurrencesPositive(s: string, c: char)
    requires c in s
    ensures Occurrences(s, c) >= 1
  {
    if s[0] != c {
      OccurrencesPositive(s[1..], c);
    }
  }

  lemma {:induction false} CountInAddLetter(s: string, d: set<char>, c: char)
    requires c !in d
    ensures CountIn(s, d + {c}) == CountIn(s, d) + Occurrences(s, c)
  {
    if s != [] {
      CountInAddLetter(s[1..], d, c);
    }
  }

  lemma {:induction false} CountInCovering(s: string, d: set<char>)
    requires Distinct(s) <= d
    ensures CountIn(s, d) == |s|
  {
    if s != [] {
      assert Distinct(s[1..]) <= Distinct(s);
      CountInCovering(s[1..], d);
    }
  }

  lemma {:induction false} DistinctAtMostLength(s: string)
    ensures |Distinct(s)| <= |s|
  {
    if s != [] {
      DistinctAtMostLength(s[1..]);
      assert Distinct(s) == {s[0]} + Distinct(s[1..]);
    }
  }

  lemma {:induction false} MissingFromCount(alpha: string, present: set<char>)
    requires forall i, j :: 0 <= i < j < |alpha| ==> alpha[i] != alpha[j]
    ensures |MissingFrom(alpha, present)| == |Distinct(alpha) - present|
  {
    if alpha != [] {
      MissingFromCount(alpha[1..], present);
      assert Distinct(alpha) == {alpha[0]} + Distinct(alpha[1..]);
      assert alpha[0] !in Distinct(alpha[1..]) by {
        assert forall j :: 0 <= j < |alpha[1..]| ==> alpha[1..][j] == alpha[j + 1] != alpha[0];
      }
      if alpha[0] in present {
        assert Distinct(alpha) - present == Distinct(alpha[1..]) - present;
      } else {
        assert Distinct(alpha) - present == {alpha[0]} + (Distinct(alpha[1..]) - present);
      }
    }
  }

  lemma AlphabetHas26Letters()
    ensures Distinct(Alphabet) == AlphabetSet
    ensures |AlphabetSet| == 26
  {
    assert forall i, j :: 0 <= i < j < |Alphabet| ==> Alphabet[i] != Alphabet[j];
    MissingFromCount(Alphabet, {});
    assert MissingFrom(Alphabet, {}) == Alphabet by {
      MissingFromNone(Alphabet);
    }
  }

  lemma {:induction false} MissingFromNone(alpha: string)
    ensures MissingFrom(alpha, {}) == alpha
  {
    if alpha != [] {
      MissingFromNone(alpha[1..]);
    }
  }

  /** The `counts` dictionary of keyStats: letter to number of occurrences. */
  method CountLetters(key: string) returns (counts: map<char, nat>)
    ensures counts.Keys == Distinct(key)
    ensures forall c :: c in counts ==> counts[c] == Occurrences(key, c)
  {
    counts := map[];
    for i := 0 to |key|
      invariant counts.Keys == Distinct(key[..i])
      invariant forall c :: c in counts ==> counts[c] == Occurrences(key[..i], c)
    {
      var ch := key[i];
      assert key[..i + 1] == key[..i] + [ch];
      forall c ensures Occurrences(key[..i + 1], c) == Occurrences(key[..i], c) + (if ch == c then 1 else 0) {
        OccurrencesAppend(key[..i], ch, c);
      }
      if ch !in counts {
        OccurrencesAbsent(key[..i], ch);
      }
      counts := counts[ch := (if ch in counts then counts[ch] else 0) + 1];
    }
    assert key[..|key|] == key;
  }

  /** `dup`: the sum of (count - 1) over the letters counted more than once. */
  method SumDuplicates(key: string, counts: map<char, nat>) returns (dup: nat)
    requires counts.Keys == Distinct(key)
    requires forall c :: c in counts ==> counts[c] == Occurrences(key, c)
    ensures dup == |key| - |Distinct(key)|
  {
    var sum := 0;
    var rest := counts.Keys;
    CountInNone(key);
    while rest != {}
      invariant rest <= counts.Keys
      invariant sum == CountIn(key, counts.Keys - rest) - |counts.Keys - rest|
      decreases rest
    {
      var c :| c in rest;
      var n := counts[c];
      OccurrencesPositive(key, c);
      if n > 1 {
        sum := sum + (n - 1);
      }
      CountInAddLetter(key, counts.Keys - rest, c);
      assert (counts.Keys - rest) + {c} == counts.Keys - (rest - {c});
      rest := rest - {c};
    }
    CountInCovering(key, counts.Keys);
    DistinctAtMostLength(key);
    dup := sum;
  }

  /**
   * keyStats: the count of every letter is gathered in a map, `dup` sums
   * (count - 1) over the letters counted more than once, and `miss` counts
   * the letters of the alphabet that do not occur.
   */
  method KeyStats(key: string) returns (st: Stats)
    ensures st.len == |key|
    ensures st.dup == |key| - |Distinct(key)|
    ensures st.miss == |AlphabetSet - Distinct(key)|
  {
    var counts := CountLetters(key);
    var dup := SumDuplicates(key, counts);
    var missing := MissingFrom(Alphabet, Distinct(key));
    AlphabetHas26Letters();
    MissingFromCount(Alphabet, Distinct(key));
    st := Stats(|key|, dup, |missing|);
  }

  /** For a normalised key, `miss` is 26 minus the number of distinct letters. */
  lemma MissingOfNormalizedKey(key: string)
    requires IsNormalizedKey(key)
    ensures |AlphabetSet - Distinct(key)| == 26 - |Distinct(key)|
  {
    AlphabetHas26Letters();
    forall c | c in Distinct(key) ensures c in AlphabetSet {
      AlphabetIsUpperLetters(c);
    }
    assert AlphabetSet - Distinct(key) + Distinct(key) == AlphabetSet;
  }

  /** keyStats("AAB") has dup 1 and miss 24 (and len 3, the length). */
  lemma StatsExample()
    ensures |"AAB"| - |Distinct("AAB")| == 1
    ensures |AlphabetSet - Distinct("AAB")| == 24
  {
    assert Distinct("AAB") == {'A', 'B'};
    MissingOfNormalizedKey("AAB");
  }

  // ---------------------------------------------------------------------
  // Column lookup

  /** findAllIndices: every position of the key holding `ch`, ascending. */
  method FindAllIndices(key: string, ch: char) returns (indices: seq<int>)
    ensures forall j :: j in indices <==> 0 <= j < |key| && key[j] == ch
    ensures forall a, b :: 0 <= a < b < |indices| ==> indices[a] < indices[b]
    ensures |indices| == 0 <==> ch !in key
  {
    indices := [];
    for i := 0 to |key|
      invariant forall j :: j in indices <==> 0 <= j < i && key[j] == ch
      invariant forall a, b :: 0 <= a < b < |indices| ==> indices[a] < indices[b]
      invariant forall a :: 0 <= a < |indices| ==> indices[a] < i
    {
      if key[i] == ch {
        indices := indices + [i];
      }
    }
    if |indices| > 0 {
      assert indices[0] in indices;
    }
    if ch in key {
      var j :| 0 <= j < |key| && key[j] == ch;
      assert j in indices;
    }
  }

  // ---------------------------------------------------------------------
  // Shuffle

  /** The Fisher-Yates pass of the shuffle button; `Math.random` is any choice in 0..i. */
  method Shuffle(k: string) returns (s: string)
    ensures |s| == |k|
    ensures multiset(s) == multiset(k)
  {
    var arr := new char[|k|](i requires 0 <= i < |k| => k[i]);
    assert arr[..] == k;
    var i := arr.Length - 1;
    while i > 0
      invariant -1 <= i < arr.Length
      invariant multiset(arr[..]) == multiset(k)
    {
      var j :| 0 <= j <= i;
      arr[i], arr[j] := arr[j], arr[i];
      i := i - 1;
    }
    s := arr[..];
  }

  /** A shuffled normalised key is still a normalised key. */
  lemma PermutationKeepsNormalized(k: string, s: string)
    requires IsNormalizedKey(k)
    requires |s| == |k| && multiset(s) == multiset(k)
    ensures IsNormalizedKey(s)
  {
    forall i | 0 <= i < |s| ensures IsUpperLetter(s[i]) {
      assert s[i] in multiset(s);
      assert s[i] in k;
    }
  }
}
