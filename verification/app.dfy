/** The pure part of round assembly in App.tsx: which fetched rounds are
    kept, and how the twelve-tile letter pool is built from the word. The
    word and photo searches themselves are not modelled: the word arrives as
    a string and the photos as a count. */
module App {
  import opened LetterUtils

  /** Longest word a round may use. */
  const MAX_WORD_LENGTH: int := 8
  /** Fewest photos a round needs. */
  const MIN_PHOTOS: int := 4
  /** Tiles in the letter pool. */
  const TILE_COUNT: int := 12

  /** The check of App.tsx: a round is refetched when the word is too long or
      too few photos came back, and kept otherwise. */
  function AcceptsRound(wordLength: int, photoCount: int): (kept: bool)
    ensures kept <==> wordLength <= MAX_WORD_LENGTH && photoCount >= MIN_PHOTOS
  {
    !(wordLength > MAX_WORD_LENGTH || photoCount < MIN_PHOTOS)
  }

  /** `toUpperCase` on the ASCII range. */
  function UpperChar(c: char): (u: char)
    ensures 'a' <= c <= 'z' ==> IsUpperLetter(u) && u as int - c as int == 'A' as int - 'a' as int
    ensures !('a' <= c <= 'z') ==> u == c
  {
    if 'a' <= c <= 'z' then (c as int - 'a' as int + 'A' as int) as char else c
  }

  function ToUpperCase(w: string): (u: string)
    ensures |u| == |w|
    ensures forall k :: 0 <= k < |w| ==> u[k] == UpperChar(w[k])
  {
    seq(|w|, k requires 0 <= k < |w| => UpperChar(w[k]))
  }

  /** The word source already upper-cases what it returns. */
  predicate IsUpperCased(w: string) {
    forall k :: 0 <= k < |w| ==> !('a' <= w[k] <= 'z')
  }

  /** Upper-casing an upper-cased word changes nothing, so the tiles built
      from `word.toUpperCase()` spell the very word the round expects. */
  lemma UpperCasedIsFixed(w: string)
    ensures IsUpperCased(ToUpperCase(w))
    ensures IsUpperCased(w) <==> ToUpperCase(w) == w
  {
    if !IsUpperCased(w) {
      var k :| 0 <= k < |w| && 'a' <= w[k] <= 'z';
      assert ToUpperCase(w)[k] != w[k];
    }
  }

  /** The outcome of one `fetchGameData` attempt. */
  datatype Fetch =
    | Refetch
    | Round(randomWord: string, photoCount: int, letters: seq<char>)

  /** One attempt of `fetchGameData` after both fetches returned: a rejected
      round asks for a refetch; an accepted one keeps the word and photos and
      builds the pool from the word's letters and `12 - |word|` random
      fillers, shuffled. */
  method FetchGameData(word: string, photoCount: int, picks: seq<int>, partners: seq<int>)
    returns (r: Fetch)
    requires IsUpperCased(word)
    requires TILE_COUNT <= |picks| && ValidPicks(picks)
    requires ValidPartners(TILE_COUNT, partners)
    ensures r.Refetch? <==> |word| > MAX_WORD_LENGTH || photoCount < MIN_PHOTOS
    ensures r.Round? ==> r.randomWord == word && r.photoCount == photoCount
    ensures r.Round? ==> |word| <= MAX_WORD_LENGTH && photoCount >= MIN_PHOTOS
    ensures r.Round? ==> |r.letters| == TILE_COUNT
    ensures r.Round? ==> multiset(word) <= multiset(r.letters)
    ensures r.Round? ==> |multiset(r.letters) - multiset(word)| == TILE_COUNT - |word|
    ensures r.Round? ==> forall c :: c in multiset(r.letters) - multiset(word) ==> IsUpperLetter(c)
  {
    if !AcceptsRound(|word|, photoCount) {
      return Refetch;
    }
    UpperCasedIsFixed(word);
    var wordLetters := ToUpperCase(word);
    var additionalLetters := GenerateRandomLetters(TILE_COUNT - |wordLetters|, picks);
    var allLetters := ShuffleArray(wordLetters + additionalLetters, partners);
    PoolFromWordAndFillers(word, additionalLetters, allLetters);
    r := Round(word, photoCount, allLetters);
  }

  /** A pool that rearranges the word followed by fillers holds the word's
      letters, and beyond them exactly the fillers. */
  lemma PoolFromWordAndFillers(word: string, fillers: seq<char>, pool: seq<char>)
    requires multiset(pool) == multiset(word + fillers)
    ensures multiset(word) <= multiset(pool)
    ensures multiset(pool) - multiset(word) == multiset(fillers)
    ensures |multiset(pool) - multiset(word)| == |fillers|
  {
    assert multiset(word + fillers) == multiset(word) + multiset(fillers);
  }

  /** What one fetch returned: the word and how many photos matched it. */
  datatype Attempt = Attempt(word: string, photoCount: int)

  /** The recursive retry of `fetchGameData` over the successive fetches it
      makes: the index of the first round it keeps, or -1 when none of these
      attempts is kept (the retry would go on). */
  function KeptAttempt(attempts: seq<Attempt>): (k: int)
    ensures k == -1 <==> forall i :: 0 <= i < |attempts| ==>
              !AcceptsRound(|attempts[i].word|, attempts[i].photoCount)
    ensures k != -1 ==> 0 <= k < |attempts| && AcceptsRound(|attempts[k].word|, attempts[k].photoCount)
    ensures k != -1 ==> forall i :: 0 <= i < k ==> !AcceptsRound(|attempts[i].word|, attempts[i].photoCount)
  {
    if |attempts| == 0 then -1
    else if AcceptsRound(|attempts[0].word|, attempts[0].photoCount) then 0
    else
      var k := KeptAttempt(attempts[1..]);
      if k == -1 then -1 else k + 1
  }
}
