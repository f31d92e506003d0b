/**
 * What plaintextToPoints computes, stated over values: which plaintext
 * positions are plotted, what the index cache holds, and the points.
 */
module Encoding {
  import opened Text
  import opened Layout
  import opened Decoder

  const MaxPlainLength: nat := 10000

  /** The plaintext cut to its first 10000 characters and upper-cased. */
  function PreparePlain(plain: string): (P: string)
    ensures |P| == if |plain| > MaxPlainLength then MaxPlainLength else |plain|
    ensures forall i :: 0 <= i < |P| ==> P[i] == ToUpper(plain[i])
  {
    UpperAll(if |plain| > MaxPlainLength then plain[..MaxPlainLength] else plain)
  }

  /** Position `i` of `P` is plotted: an A-Z letter that occurs in the key. */
  predicate IsKept(P: string, key: string, i: int)
  {
    0 <= i < |P| && IsUpperLetter(P[i]) && P[i] in key
  }

  /** The plotted positions below `n`, ascending. */
  function KeptBefore(P: string, key: string, n: nat): (ks: seq<nat>)
    requires n <= |P|
    ensures forall k :: 0 <= k < |ks| ==> IsKept(P, key, ks[k]) && ks[k] < n
    ensures forall a, b :: 0 <= a < b < |ks| ==> ks[a] < ks[b]
    ensures forall i :: 0 <= i < n && IsKept(P, key, i) ==> i in ks
  {
    if n == 0 then []
    else KeptBefore(P, key, n - 1) + (if IsKept(P, key, n - 1) then [n - 1] else [])
  }

  function KeptPositions(P: string, key: string): seq<nat>
  {
    KeptBefore(P, key, |P|)
  }

  /** The plotted letters, in plaintext order. */
  function KeptLetters(P: string, key: string): (s: string)
    ensures |s| == |KeptPositions(P, key)|
  {
    var ks := KeptPositions(P, key);
    seq(|ks|, k requires 0 <= k < |ks| => P[ks[k]])
  }

  /** The cache key `${i}_${ch}`, as a pair. */
  type CacheKey = (int, char)

  /** A cache key naming a position of `P` that holds that A-Z letter. */
  predicate Occurs(P: string, e: CacheKey)
  {
    0 <= e.0 < |P| && IsUpperLetter(e.1) && P[e.0] == e.1
  }

  /** A cache key naming a plotted position with its letter. */
  predicate IsKeptEntry(P: string, key: string, e: CacheKey)
  {
    IsKept(P, key, e.0) && P[e.0] == e.1
  }

  /** Position `idx` of the key holds the letter `ch`. */
  predicate HoldsLetter(key: string, idx: int, ch: char)
  {
    0 <= idx < |key| && key[idx] == ch
  }

  /** Every cached index holds its entry's letter in `key`. */
  predicate CacheValid(key: string, cache: map<CacheKey, int>)
  {
    forall e :: e in cache ==> HoldsLetter(key, cache[e], e.1)
  }

  /**
   * `pts` are the points plaintextToPoints emits for `P`: one per plotted
   * position, the k-th on row k and on the column the cache holds for that
   * position, a column of the key holding the letter.
   */
  ghost predicate EncodedBy(P: string, key: string, cache: map<CacheKey, int>, pts: seq<Point>)
  {
    var ks := KeptPositions(P, key);
    && |pts| == |ks|
    && forall k :: 0 <= k < |pts| ==>
      && (ks[k], P[ks[k]]) in cache
      && HoldsLetter(key, cache[(ks[k], P[ks[k]])], P[ks[k]])
      && pts[k] == Point(ColX(cache[(ks[k], P[ks[k]])]), RowY(k))
  }

  /**
   * Decoding the encoder's points with the same key gives back the plotted
   * letters, lower-cased, whichever duplicate columns the cache chose.
   */
  lemma EncodeDecodeRoundTrip(P: string, key: string, cache: map<CacheKey, int>, pts: seq<Point>)
    requires EncodedBy(P, key, cache, pts)
    ensures Decoded(pts, key) == LowerAll(KeptLetters(P, key))
  {
    var ks := KeptPositions(P, key);
    var idxs: seq<nat> := seq(|pts|, k requires 0 <= k < |pts| => cache[(ks[k], P[ks[k]])]);
    DecodeColumnsRoundTrip(pts, key, idxs);
    assert seq(|pts|, k requires 0 <= k < |pts| => key[idxs[k]]) == KeptLetters(P, key);
  }

  /** The A-Z letters of `P`, in order. */
  function UpperLetters(P: string): string
  {
    if P == [] then [] else UpperLetters(P[..|P| - 1]) + (if IsUpperLetter(P[|P| - 1]) then [P[|P| - 1]] else [])
  }

  lemma {:induction false} KeptLettersWhenKeyComplete(P: string, key: string, n: nat)
    requires n <= |P|
    requires forall i :: 0 <= i < |P| && IsUpperLetter(P[i]) ==> P[i] in key
    ensures var ks := KeptBefore(P, key, n);
      seq(|ks|, k requires 0 <= k < |ks| => P[ks[k]]) == UpperLetters(P[..n])
  {
    if n > 0 {
      KeptLettersWhenKeyComplete(P, key, n - 1);
      assert P[..n][..n - 1] == P[..n - 1];
    }
  }

  /**
   * When every A-Z letter of the plaintext occurs in the key, decoding
   * recovers all of its letters, lower-cased.
   */
  lemma CompleteKeyRoundTrip(P: string, key: string, cache: map<CacheKey, int>, pts: seq<Point>)
    requires EncodedBy(P, key, cache, pts)
    requires forall i :: 0 <= i < |P| && IsUpperLetter(P[i]) ==> P[i] in key
    ensures Decoded(pts, key) == LowerAll(UpperLetters(P))
  {
    EncodeDecodeRoundTrip(P, key, cache, pts);
    KeptLettersWhenKeyComplete(P, key, |P|);
    assert P[..|P|] == P;
  }

  // ---------------------------------------------------------------------
  // The cache key of the encode playback

  /** indexOf: the first position of `ch` in `P`, or -1 when it does not occur. */
  function IndexOf(P: string, ch: char): (r: int)
    ensures -1 <= r < |P|
    ensures r == -1 <==> ch !in P
    ensures r >= 0 ==> P[r] == ch && forall j :: 0 <= j < r ==> P[j] != ch
  {
    var i := Find(P, ch);
    if i == |P| then -1 else i
  }

  /**
   * The encode playback keys every occurrence of a letter by its first
   * occurrence: two positions holding the same letter share one cache entry,
   * and the later one is never keyed by its own position.
   */
  lemma PlaybackSharesEntry(P: string, i: nat, j: nat)
    requires i < j < |P| && P[i] == P[j]
    ensures IndexOf(P, P[i]) == IndexOf(P, P[j]) <= i
    ensures (IndexOf(P, P[j]), P[j]) != (j, P[j])
  {
  }

  /**
   * The two encoders can plot different columns from one cache: with key
   * "AA", plaintext "AXA" and a cache holding column 0 for position 0 and
   * column 1 for position 2, the playback reads the entry of the first "A"
   * for the last one and plots column 0, while the bulk encoder reuses the
   * still valid column 1 of position 2.
   */
  lemma PlaybackColumnDiffers()
    ensures var P, key, cache := "AXA", "AA", map[(0, 'A') := 0, (2, 'A') := 1];
      && IndexOf(P, P[2]) == 0
      && HoldsLetter(key, cache[(2, P[2])], P[2])
      && cache[(IndexOf(P, P[2]), P[2])] == 0 && cache[(2, P[2])] == 1
  {
    var P := "AXA";
    assert P[0] == 'A';
    assert Find(P, 'A') == 0;
  }
}
