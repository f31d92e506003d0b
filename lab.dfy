/**
 * The page state: the key, the index cache of the encoder, the encoded
 * points, and the two step-by-step playback machines.
 */
module Lab {
  import opened Text
  import opened KeyModel
  import opened Layout
  import opened Decoder
  import opened PointsParser
  import opened Encoding

  /**
   * The column of one plotted letter: the cached index for `cacheKey` when
   * it still holds the letter, otherwise any of the letter's `indices`,
   * which is then cached.
   */
  method ChooseColumn(k: string, cacheKey: CacheKey, indices: seq<int>, cache: map<CacheKey, int>)
    returns (idx: int, cache': map<CacheKey, int>)
    requires |indices| > 0
    requires forall j :: j in indices <==> 0 <= j < |k| && k[j] == cacheKey.1
    ensures HoldsLetter(k, idx, cacheKey.1)
    ensures cache' == cache[cacheKey := idx]
    ensures cacheKey in cache && HoldsLetter(k, cache[cacheKey], cacheKey.1) ==> idx == cache[cacheKey]
  {
    cache' := cache;
    if cacheKey in cache {
      idx := cache[cacheKey];
      if !HoldsLetter(k, idx, cacheKey.1) {
        var r :| 0 <= r < |indices|;
        idx := indices[r];
        assert idx in indices;
        cache' := cache[cacheKey := idx];
      }
    } else {
      var r :| 0 <= r < |indices|;
      idx := indices[r];
      assert idx in indices;
      cache' := cache[cacheKey := idx];
    }
  }

  /** `pts` are placed for the positions `ks` as the cache says, one per row. */
  ghost predicate PlacedAt(P: string, k: string, cache: map<CacheKey, int>, ks: seq<nat>, pts: seq<Point>)
  {
    && |pts| == |ks|
    && forall m :: 0 <= m < |pts| ==>
      && ks[m] < |P|
      && (ks[m], P[ks[m]]) in cache
      && HoldsLetter(k, cache[(ks[m], P[ks[m]])], P[ks[m]])
      && pts[m] == Point(ColX(cache[(ks[m], P[ks[m]])]), RowY(m))
  }

  /** Placing position `i`, beyond every placed one, keeps the earlier points placed. */
  lemma PlacedAtExtend(P: string, k: string, cache: map<CacheKey, int>, ks: seq<nat>, pts: seq<Point>, i: nat, idx: int)
    requires PlacedAt(P, k, cache, ks, pts)
    requires forall m :: 0 <= m < |ks| ==> ks[m] < i
    requires i < |P| && HoldsLetter(k, idx, P[i])
    ensures PlacedAt(P, k, cache[(i, P[i]) := idx], ks + [i], pts + [Point(ColX(idx), RowY(|pts|))])
  {
  }

  /**
   * The cache after the positions below `i` were placed: it gained exactly
   * their entries, kept every other entry and every valid one unchanged,
   * and every entry it changed holds its letter.
   */
  ghost predicate CacheSoFar(P: string, k: string, cache: map<CacheKey, int>, cache': map<CacheKey, int>, i: int)
  {
    && (forall e :: e in cache' <==> e in cache || (e.0 < i && IsKeptEntry(P, k, e)))
    && (forall e :: e in cache && (!(e.0 < i && IsKeptEntry(P, k, e)) || HoldsLetter(k, cache[e], e.1)) ==>
          e in cache' && cache'[e] == cache[e])
    && (forall e :: e in cache' ==> HoldsLetter(k, cache'[e], e.1) || (e in cache && cache'[e] == cache[e]))
  }

  lemma CacheSoFarSkip(P: string, k: string, cache: map<CacheKey, int>, cache': map<CacheKey, int>, i: nat)
    requires i < |P| && !IsKept(P, k, i)
    requires CacheSoFar(P, k, cache, cache', i)
    ensures CacheSoFar(P, k, cache, cache', i + 1)
  {
  }

  lemma CacheSoFarPlace(P: string, k: string, cache: map<CacheKey, int>, cache': map<CacheKey, int>, i: nat, idx: int)
    requires i < |P| && IsKept(P, k, i) && HoldsLetter(k, idx, P[i])
    requires (i, P[i]) in cache' && HoldsLetter(k, cache'[(i, P[i])], P[i]) ==> idx == cache'[(i, P[i])]
    requires CacheSoFar(P, k, cache, cache', i)
    ensures CacheSoFar(P, k, cache, cache'[(i, P[i]) := idx], i + 1)
  {
  }

  /**
   * The main loop of plaintextToPoints over the prepared plaintext `P`:
   * each plotted position gets the cached column when it still holds the
   * letter, otherwise a fresh choice among the letter's columns, which is
   * stored; the points go on consecutive rows.
   */
  method PlacePoints(P: string, k: string, cache: map<CacheKey, int>)
    returns (pts: seq<Point>, cache': map<CacheKey, int>)
    ensures EncodedBy(P, k, cache', pts)
    ensures forall e :: e in cache' <==> e in cache || IsKeptEntry(P, k, e)
    ensures forall e :: e in cache && (!IsKeptEntry(P, k, e) || HoldsLetter(k, cache[e], e.1)) ==>
      cache'[e] == cache[e]
    ensures forall e :: e in cache' ==> HoldsLetter(k, cache'[e], e.1) || (e in cache && cache'[e] == cache[e])
  {
    cache' := cache;
    var row := 0;
    pts := [];
    var i := 0;
    ghost var ks: seq<nat> := [];
    while i < |P|
      invariant 0 <= i <= |P|
      invariant ks == KeptBefore(P, k, i)
      invariant row == |pts|
      invariant PlacedAt(P, k, cache', ks, pts)
      invariant CacheSoFar(P, k, cache, cache', i)
    {
      var ch := P[i];
      if !IsUpperLetter(ch) {
        CacheSoFarSkip(P, k, cache, cache', i);
        i := i + 1;
        continue;
      }
      var indices := FindAllIndices(k, ch);
      if |indices| == 0 {
        CacheSoFarSkip(P, k, cache, cache', i);
        i := i + 1;
        continue;
      }
      var idx;
      ghost var old' := cache';
      idx, cache' := ChooseColumn(k, (i, ch), indices, cache');
      PlacedAtExtend(P, k, old', ks, pts, i, idx);
      CacheSoFarPlace(P, k, cache, old', i, idx);
      pts := pts + [Point(ColX(idx), RowY(row))];
      ks := ks + [i];
      row := row + 1;
      i := i + 1;
    }
  }

  /**
   * The last step of plaintextToPoints: drop every cache entry whose
   * position does not hold its letter in `P`.
   */
  method PruneCache(P: string, cache: map<CacheKey, int>) returns (pruned: map<CacheKey, int>)
    ensures forall e :: e in pruned <==> e in cache && Occurs(P, e)
    ensures forall e :: e in pruned ==> pruned[e] == cache[e]
  {
    var currentKeys: set<CacheKey> := {};
    for j := 0 to |P|
      invariant currentKeys == set m | 0 <= m < j && IsUpperLetter(P[m]) :: (m, P[m])
    {
      if IsUpperLetter(P[j]) {
        currentKeys := currentKeys + {(j, P[j])};
      }
    }
    assert forall e :: e in currentKeys <==> Occurs(P, e) by {
      forall e | Occurs(P, e) ensures e in currentKeys {
        assert e == (e.0, P[e.0]);
      }
    }
    pruned := cache;
    var rest := cache.Keys;
    while rest != {}
      invariant rest <= cache.Keys
      invariant forall e :: e in pruned <==> e in cache && (e in rest || e in currentKeys)
      invariant forall e :: e in pruned ==> pruned[e] == cache[e]
      decreases rest
    {
      var e :| e in rest;
      if e !in currentKeys {
        pruned := pruned - {e};
      }
      rest := rest - {e};
    }
  }

  /** The letters the encode playback plots: the A-Z letters of `P` found in `k`. */
  method ValidChars(P: string, k: string) returns (chars: string)
    ensures chars == KeptLetters(P, k)
  {
    chars := "";
    for i := 0 to |P|
      invariant |chars| == |KeptBefore(P, k, i)|
      invariant forall m :: 0 <= m < |chars| ==> chars[m] == P[KeptBefore(P, k, i)[m]]
    {
      var ch := P[i];
      if IsUpperLetter(ch) && ch in k {
        chars := chars + [ch];
      }
    }
  }

  /**
   * The column the encode playback plots for cache key `ck`: the cached one,
   * unchecked, when there is one; otherwise a random column of the letter,
   * which is then cached; none when the key lacks the letter.
   */
  method PlaybackColumn(k: string, ck: CacheKey, cache: map<CacheKey, int>)
    returns (found: bool, idx: int, cache': map<CacheKey, int>)
    ensures ck in cache ==> found && idx == cache[ck] && cache' == cache
    ensures ck !in cache && ck.1 in k ==> found && HoldsLetter(k, idx, ck.1) && cache' == cache[ck := idx]
    ensures ck !in cache && ck.1 !in k ==> !found && cache' == cache
  {
    if ck in cache {
      return true, cache[ck], cache;
    }
    var indices := FindAllIndices(k, ck.1);
    if |indices| == 0 {
      return false, -1, cache;
    }
    var r :| 0 <= r < |indices|;
    idx := indices[r];
    assert idx in indices;
    found, cache' := true, cache[ck := idx];
  }

  class CipherLab {
    var key: string
    /** The column cache of the encoder, keyed by plaintext position and letter. */
    var selected: map<CacheKey, int>
    /** The points of the last encoding. */
    var lastPoints: seq<Point>

    // Encode playback: the timer flag, the step index, and what the
    // interval callback captured (upper-cased plaintext, its plotted
    // letters, the points drawn so far).
    var encRunning: bool
    var encStep: nat
    var encPlain: string
    var encChars: string
    var encPoints: seq<Point>

    // Decode playback: the timer flag, the step index, the sorted points
    // the interval callback captured, and the output text box.
    var decRunning: bool
    var decStep: nat
    var decQueue: seq<Point>
    /** The points the decoder last accepted (sorted when playback started them). */
    var decPoints: seq<Point>
    var decOutput: string

    ghost predicate Valid()
      reads this
    {
      && IsNormalizedKey(key)
      && CacheValid(key, selected)
      && encStep <= |encChars|
      && decStep <= |decQueue|
    }

    /** The output box holds exactly the letters of the points played so far. */
    ghost predicate DecodeInSync()
      reads this
    {
      decStep <= |decQueue| && decOutput == DecodeSorted(decQueue[..decStep], key)
    }

    /** The initial state, after the start-up `setKey(state.key)`. */
    constructor ()
      ensures Valid()
      ensures key == Alphabet && selected == map[] && lastPoints == []
      ensures !encRunning && !decRunning
    {
      key := Alphabet;
      selected := map[];
      lastPoints := [];
      encRunning, encStep, encPlain, encChars, encPoints := false, 0, [], [], [];
      decRunning, decStep, decQueue, decPoints, decOutput := false, 0, [], [], [];
      forall i | 0 <= i < |Alphabet| ensures IsUpperLetter(Alphabet[i]) {
        AlphabetIsUpperLetters(Alphabet[i]);
      }
    }

    // -------------------------------------------------------------------
    // Key

    /** setKey: replace the key and forget every cached column. */
    method SetKey(newKey: string)
      requires Valid()
      requires IsNormalizedKey(newKey)
      modifies this`key, this`selected
      ensures Valid()
      ensures key == newKey && selected == map[]
    {
      key := newKey;
      selected := map[];
    }

    /** The apply button: normalise the typed key and set it. */
    method ApplyKey(raw: string)
      requires Valid()
      modifies this`key, this`selected
      ensures Valid()
      ensures key == NormalizeKey(raw) && selected == map[]
    {
      SetKey(NormalizeKey(raw));
    }

    /** The shuffle button: a random permutation of the normalised key. */
    method ShuffleKey(input: string)
      requires Valid()
      modifies this`key, this`selected
      ensures Valid()
      ensures var source := NormalizeKey(if input == [] then old(key) else input);
        |key| == |source| && multiset(key) == multiset(source)
      ensures selected == map[]
    {
      var source := NormalizeKey(if input == [] then key else input);
      var shuffled := Shuffle(source);
      PermutationKeepsNormalized(source, shuffled);
      SetKey(shuffled);
    }

    /** The reset button: back to A-Z. */
    method ResetKey()
      requires Valid()
      modifies this`key, this`selected
      ensures Valid()
      ensures key == Alphabet && selected == map[]
    {
      forall i | 0 <= i < |Alphabet| ensures IsUpperLetter(Alphabet[i]) {
        AlphabetIsUpperLetters(Alphabet[i]);
      }
      SetKey(Alphabet);
    }

    // -------------------------------------------------------------------
    // Encoder

    /**
     * plaintextToPoints: one point per A-Z letter of the (truncated,
     * upper-cased) plaintext that occurs in `k`, on dense rows; the column
     * is the cached one when it still holds the letter, otherwise a fresh
     * choice among the letter's columns; finally the cache forgets every
     * entry whose position no longer holds its letter.
     */
    method PlaintextToPoints(plain: string, k: string) returns (pts: seq<Point>)
      modifies this`selected
      ensures var P := PreparePlain(plain);
        && EncodedBy(P, k, selected, pts)
        && (forall e :: e in selected <==> (e in old(selected) && Occurs(P, e)) || IsKeptEntry(P, k, e))
        && (forall e :: e in selected && e in old(selected) && (!IsKeptEntry(P, k, e) || HoldsLetter(k, old(selected)[e], e.1)) ==>
              selected[e] == old(selected)[e])
        && (forall e :: e in selected ==> HoldsLetter(k, selected[e], e.1) || (e in old(selected) && selected[e] == old(selected)[e]))
    {
      var P := PreparePlain(plain);
      var placed;
      pts, placed := PlacePoints(P, k, selected);
      selected := PruneCache(P, placed);
    }

    /** drawEncryptViz without the drawing: encode the plaintext, keep the points. */
    method Encrypt(plain: string)
      requires Valid()
      modifies this`selected, this`lastPoints
      ensures Valid()
      ensures EncodedBy(PreparePlain(plain), key, selected, lastPoints)
      ensures forall e :: e in selected <==>
        (e in old(selected) && Occurs(PreparePlain(plain), e)) || IsKeptEntry(PreparePlain(plain), key, e)
      ensures forall e :: e in selected && e in old(selected) ==> selected[e] == old(selected)[e]
    {
      lastPoints := PlaintextToPoints(plain, key);
    }

    /**
     * Redrawing the same plaintext with the same key plots the same points:
     * every cached column is reused.
     */
    method RedrawIsStable(plain: string) returns (first: seq<Point>, second: seq<Point>)
      requires Valid()
      modifies this`selected, this`lastPoints
      ensures Valid()
      ensures first == second
    {
      Encrypt(plain);
      first := lastPoints;
      ghost var cache := selected;
      Encrypt(plain);
      second := lastPoints;
      ghost var P := PreparePlain(plain);
      ghost var ks := KeptPositions(P, key);
      forall m | 0 <= m < |first| ensures first[m] == second[m] {
        var e := (ks[m], P[ks[m]]);
        assert selected[e] == cache[e];
      }
    }

    /** The clear button of the encoder: empty text, empty cache, no playback. */
    method EncClear()
      requires Valid()
      modifies this`selected, this`lastPoints, this`encRunning
      ensures Valid()
      ensures selected == map[] && lastPoints == [] && !encRunning
    {
      selected := map[];
      encRunning := false;
      Encrypt("");
    }

    // -------------------------------------------------------------------
    // Decoder (bulk)

    /**
     * The decode button: on a parse error nothing changes; no points clear
     * the output; otherwise the output is the decoded text.
     */
    method DecodeNow(raw: string)
      requires Valid()
      modifies this`decPoints, this`decOutput
      ensures Valid()
      ensures ParsePoints(raw).errors != [] ==> decPoints == old(decPoints) && decOutput == old(decOutput)
      ensures ParsePoints(raw).errors == [] && ParsePoints(raw).pts == [] ==> decPoints == old(decPoints) && decOutput == []
      ensures ParsePoints(raw).errors == [] && ParsePoints(raw).pts != [] ==>
        decPoints == ParsePoints(raw).pts && decOutput == Decoded(decPoints, key)
    {
      var pts, errors := ParsePointsInput(raw);
      ShowDecoded(pts, errors);
    }

    /**
     * The live handler of the points box: on every edit the input is parsed
     * and, when it has no errors, becomes the decoder's points (the output
     * box is left alone).
     */
    method PointsEdited(raw: string)
      requires Valid()
      modifies this`decPoints
      ensures Valid()
      ensures ParsePoints(raw).errors == [] ==> decPoints == ParsePoints(raw).pts
      ensures ParsePoints(raw).errors != [] ==> decPoints == old(decPoints)
    {
      var pts, errors := ParsePointsInput(raw);
      if |errors| == 0 {
        decPoints := pts;
      }
    }

    /** What the decode button does with the parser's result. */
    method ShowDecoded(pts: seq<Point>, errors: seq<ParseError>)
      requires Valid()
      modifies this`decPoints, this`decOutput
      ensures Valid()
      ensures errors != [] ==> decPoints == old(decPoints) && decOutput == old(decOutput)
      ensures errors == [] && pts == [] ==> decPoints == old(decPoints) && decOutput == []
      ensures errors == [] && pts != [] ==> decPoints == pts && decOutput == Decoded(pts, key)
    {
      if |errors| > 0 {
        return;
      }
      if |pts| == 0 {
        decOutput := "";
        return;
      }
      decPoints := pts;
      decOutput := DecodeFromPoints(pts, key);
    }

    // -------------------------------------------------------------------
    // Decode playback

    /**
     * The decode play button: a no-op while running or on a parse error or
     * no points; otherwise sort the points, clear the output and start.
     */
    method DecPlay(raw: string)
      requires Valid()
      modifies this`decRunning, this`decStep, this`decQueue, this`decPoints, this`decOutput
      ensures Valid()
      ensures old(decRunning) || ParsePoints(raw).errors != [] || ParsePoints(raw).pts == [] ==>
        && decRunning == old(decRunning) && decStep == old(decStep) && decQueue == old(decQueue)
        && decPoints == old(decPoints) && decOutput == old(decOutput)
      ensures !old(decRunning) && ParsePoints(raw).errors == [] && ParsePoints(raw).pts != [] ==>
        && decRunning && decStep == 0 && decOutput == []
        && decQueue == SortByY(ParsePoints(raw).pts) && decPoints == decQueue
        && DecodeInSync()
    {
      if decRunning {
        return;
      }
      var pts, errors := ParsePointsInput(raw);
      if |errors| > 0 {
        return;
      }
      if |pts| == 0 {
        return;
      }
      StartDecode(pts);
    }

    /** The start of a decode playback over `pts`: sorted, from an empty output. */
    method StartDecode(pts: seq<Point>)
      requires Valid()
      modifies this`decRunning, this`decStep, this`decQueue, this`decPoints, this`decOutput
      ensures Valid()
      ensures decRunning && decStep == 0 && decOutput == []
      ensures decQueue == SortByY(pts) && decPoints == decQueue
      ensures DecodeInSync()
    {
      var sortedPts := SortByY(pts);
      assert sortedPts[..0] == [];
      decQueue, decPoints, decStep, decOutput, decRunning := sortedPts, sortedPts, 0, "", true;
    }

    /**
     * One firing of the decode interval: past the last point it clears the
     * timer; otherwise it appends the letter of the next point.
     */
    method DecTick()
      requires Valid() && decRunning
      modifies this`decRunning, this`decStep, this`decOutput
      ensures Valid()
      ensures old(decStep) == |decQueue| ==>
        !decRunning && decStep == old(decStep) && decOutput == old(decOutput)
      ensures old(decStep) < |decQueue| ==>
        && decRunning && decStep == old(decStep) + 1
        && decOutput == old(decOutput) + LetterAt(key, Nearest(|key|, decQueue[old(decStep)].x))
      ensures old(DecodeInSync()) ==> DecodeInSync()
      ensures old(DecodeInSync()) && !decRunning ==> decOutput == DecodeSorted(decQueue, key)
    {
      if decStep >= |decQueue| {
        decRunning := false;
        assert decQueue[..decStep] == decQueue;
        return;
      }
      var p := decQueue[decStep];
      var idx := NearestKeyIndex(key, p.x);
      DecodeSortedPrefix(decQueue, decStep, key);
      decOutput, decStep := decOutput + LetterAt(key, idx), decStep + 1;
    }

    /** The decode stop button: clear the timer. */
    method DecStop()
      modifies this`decRunning
      ensures !decRunning
    {
      decRunning := false;
    }

    /** The decode clear button: no points, empty output, no playback. */
    method DecClear()
      requires Valid()
      modifies this`decRunning, this`decPoints, this`decOutput
      ensures Valid()
      ensures !decRunning && decPoints == [] && decOutput == []
    {
      decPoints := [];
      decOutput := "";
      decRunning := false;
    }

    /**
     * Playing a decode to the end with the key unchanged leaves in the
     * output box what decodeFromPoints returns for the same input.
     */
    method DecodeWithPlayback(raw: string)
      requires Valid() && !decRunning
      modifies this`decRunning, this`decStep, this`decQueue, this`decPoints, this`decOutput
      ensures Valid() && !decRunning
      ensures ParsePoints(raw).errors == [] && ParsePoints(raw).pts != [] ==>
        decOutput == Decoded(ParsePoints(raw).pts, key)
    {
      DecPlay(raw);
      PlayToEnd();
    }

    /** The decode interval firing until it clears itself. */
    method PlayToEnd()
      requires Valid()
      modifies this`decRunning, this`decStep, this`decOutput
      ensures Valid() && !decRunning
      ensures old(decRunning && DecodeInSync()) ==> decOutput == DecodeSorted(decQueue, key)
    {
      ghost var started := decRunning && DecodeInSync();
      while decRunning
        invariant Valid()
        invariant started ==> DecodeInSync()
        invariant !decRunning && started ==> decOutput == DecodeSorted(decQueue, key)
        decreases |decQueue| - decStep + (if decRunning then 1 else 0)
      {
        DecTick();
      }
    }

    // -------------------------------------------------------------------
    // Encode playback, as written: it keys the cache by the first
    // occurrence of the letter and reuses a cached column without checking it.

    /**
     * The encode play button: a no-op while running or for empty text;
     * otherwise the step index is reset and, when some letter can be
     * plotted, playback starts over the plotted letters.
     */
    method EncPlay(plain: string)
      requires Valid()
      modifies this`encRunning, this`encStep, this`encPlain, this`encChars, this`encPoints
      ensures Valid()
      ensures old(encRunning) || plain == [] ==>
        && encRunning == old(encRunning) && encStep == old(encStep) && encPlain == old(encPlain)
        && encChars == old(encChars) && encPoints == old(encPoints)
      ensures !old(encRunning) && plain != [] ==>
        encStep == 0 && (encRunning <==> KeptLetters(UpperAll(plain), key) != [])
      ensures !old(encRunning) && encRunning ==>
        encPlain == UpperAll(plain) && encChars == KeptLetters(encPlain, key) && encPoints == []
      ensures !encRunning ==>
        encPlain == old(encPlain) && encChars == old(encChars) && encPoints == old(encPoints)
    {
      if encRunning {
        return;
      }
      if plain == [] {
        return;
      }
      encStep := 0;
      var P := UpperAll(plain);
      var validChars := ValidChars(P, key);
      if |validChars| == 0 {
        return;
      }
      encPlain, encChars, encPoints := P, validChars, [];
      encRunning := true;
    }

    /**
     * One firing of the encode interval: past the last letter it clears the
     * timer; otherwise the letter's column comes from the cache entry of
     * its FIRST occurrence in the plaintext (a fresh choice, stored there,
     * when that entry is missing) and is plotted on row `encStep`.
     */
    method EncTick()
      requires Valid() && encRunning
      modifies this`encRunning, this`encStep, this`encPoints, this`selected
      ensures Valid()
      ensures old(encStep) == |encChars| ==>
        !encRunning && encStep == old(encStep) && encPoints == old(encPoints) && selected == old(selected)
      ensures old(encStep) < |encChars| ==> encRunning && encStep == old(encStep) + 1
      ensures old(encStep) < |encChars| ==>
        var ch := encChars[old(encStep)];
        var ck := (IndexOf(encPlain, ch), ch);
        && (ck in old(selected) ==>
              && selected == old(selected)
              && encPoints == old(encPoints) + [Point(ColX(old(selected)[ck]), RowY(old(encStep)))])
        && (ck !in old(selected) && ch in key ==>
              && ck in selected && selected == old(selected)[ck := selected[ck]]
              && HoldsLetter(key, selected[ck], ch)
              && encPoints == old(encPoints) + [Point(ColX(selected[ck]), RowY(old(encStep)))])
        && (ck !in old(selected) && ch !in key ==>
              selected == old(selected) && encPoints == old(encPoints))
    {
      if encStep >= |encChars| {
        encRunning := false;
        return;
      }
      var ch := encChars[encStep];
      var found, idx, cache' := PlaybackColumn(key, (IndexOf(encPlain, ch), ch), selected);
      if found {
        selected, encPoints, encStep := cache', encPoints + [Point(ColX(idx), RowY(encStep))], encStep + 1;
      } else {
        // The key was replaced during playback and lost this letter.
        encStep := encStep + 1;
      }
    }

    /** The encode stop button: clear the timer and redraw the full encoding. */
    method EncStop(plain: string)
      requires Valid()
      modifies this`encRunning, this`selected, this`lastPoints
      ensures Valid()
      ensures !encRunning
      ensures EncodedBy(PreparePlain(plain), key, selected, lastPoints)
      ensures forall e :: e in selected <==>
        (e in old(selected) && Occurs(PreparePlain(plain), e)) || IsKeptEntry(PreparePlain(plain), key, e)
      ensures forall e :: e in selected && e in old(selected) ==> selected[e] == old(selected)[e]
    {
      encRunning := false;
      Encrypt(plain);
    }
  }
}
