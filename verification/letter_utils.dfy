/** Letter helpers of the game (utils/letterUtils.ts): random filler letters
    and the Fisher-Yates shuffle. `Math.random` is replaced by oracle
    sequences holding the integer it would have produced after the source's
    `Math.floor(Math.random() * n)`, i.e. a value in `[0, n)`. */
module LetterUtils {

  /** The letters fillers are drawn from. */
  const ALPHABET: string := "ABCDEFGHIJKLMNOPQRSTUVWXYZ"

  predicate IsUpperLetter(c: char) {
    'A' <= c <= 'Z'
  }

  /** The alphabet is exactly the 26 upper-case letters, in order. */
  lemma AlphabetIsUpperCase()
    ensures |ALPHABET| == 26
    ensures forall k :: 0 <= k < |ALPHABET| ==> ALPHABET[k] as int == 'A' as int + k
    ensures forall c :: IsUpperLetter(c) ==> c in ALPHABET
  {
    forall c | IsUpperLetter(c) ensures c in ALPHABET {
      assert ALPHABET[c as int - 'A' as int] == c;
    }
  }

  /** `picks[k]` is an index into the alphabet, as `Math.floor(Math.random()
      * 26)` yields. */
  predicate ValidPicks(picks: seq<int>) {
    forall k :: 0 <= k < |picks| ==> 0 <= picks[k] < |ALPHABET|
  }

  /** `generateRandomLetters(count)`: `count` letters (none when `count` is
      not positive), the `k`-th being the alphabet letter the `k`-th pick
      selects. */
  method GenerateRandomLetters(count: int, picks: seq<int>) returns (letters: seq<char>)
    requires count <= |picks|
    requires ValidPicks(picks)
    ensures |letters| == if count < 0 then 0 else count
    ensures forall k :: 0 <= k < |letters| ==> letters[k] == ALPHABET[picks[k]]
    ensures forall k :: 0 <= k < |letters| ==> IsUpperLetter(letters[k])
  {
    AlphabetIsUpperCase();
    letters := [];
    var n := if count < 0 then 0 else count;
    var i := 0;
    while i < n
      invariant 0 <= i <= n
      invariant |letters| == i
      invariant forall k :: 0 <= k < i ==> letters[k] == ALPHABET[picks[k]]
    {
      letters := letters + [ALPHABET[picks[i]]];
      i := i + 1;
    }
  }

  /** The entries at `i` and `j` exchanged, as the destructuring assignment
      `[a[i], a[j]] = [a[j], a[i]]` does. */
  function Swap<T>(s: seq<T>, i: int, j: int): (r: seq<T>)
    requires 0 <= i < |s| && 0 <= j < |s|
    ensures |r| == |s|
    ensures r[i] == s[j] && r[j] == s[i]
    ensures forall k :: 0 <= k < |s| && k != i && k != j ==> r[k] == s[k]
  {
    seq(|s|, k requires 0 <= k < |s| => if k == j then s[i] else if k == i then s[j] else s[k])
  }

  /** A swap only rearranges: the multiset of elements is unchanged. */
  lemma SwapPermutes<T>(s: seq<T>, i: int, j: int)
    requires 0 <= i < |s| && 0 <= j < |s|
    ensures multiset(Swap(s, i, j)) == multiset(s)
  {
    assert Swap(s, i, j) == s[i := s[j]][j := s[i]];
  }

  /** `partners[i]` is the swap partner drawn in iteration `i`, as
      `Math.floor(Math.random() * (i + 1))` yields: `0 <= j <= i`. */
  predicate ValidPartners(n: int, partners: seq<int>) {
    n <= |partners| && forall i :: 1 <= i < n ==> 0 <= partners[i] <= i
  }

  /** Reference Fisher-Yates: the copy of `s` after the iterations for
      positions `|s| - 1` down to `i + 1` have run. */
  function ShuffledAbove<T>(s: seq<T>, partners: seq<int>, i: int): (r: seq<T>)
    requires 0 <= i < |s|
    requires ValidPartners(|s|, partners)
    ensures |r| == |s|
    decreases |s| - i
  {
    if i == |s| - 1 then s
    else Swap(ShuffledAbove(s, partners, i + 1), i + 1, partners[i + 1])
  }

  /** Fisher-Yates over the whole copy: iterations `|s| - 1` down to 1. */
  function FisherYates<T>(s: seq<T>, partners: seq<int>): (r: seq<T>)
    requires ValidPartners(|s|, partners)
  {
    if |s| == 0 then s else ShuffledAbove(s, partners, 0)
  }

  /** Shuffling only rearranges: every stage is a permutation of the input. */
  lemma {:induction false} ShuffledAbovePermutes<T>(s: seq<T>, partners: seq<int>, i: int)
    requires 0 <= i < |s|
    requires ValidPartners(|s|, partners)
    ensures multiset(ShuffledAbove(s, partners, i)) == multiset(s)
    decreases |s| - i
  {
    if i < |s| - 1 {
      var prev := ShuffledAbove(s, partners, i + 1);
      var j := partners[i + 1];
      ShuffledAbovePermutes(s, partners, i + 1);
      SwapPermutes(prev, i + 1, j);
      calc {
        multiset(ShuffledAbove(s, partners, i));
        multiset(Swap(prev, i + 1, j));
        multiset(prev);
        multiset(s);
      }
    }
  }

  /** Once the iteration for position `k` has run, position `k` is never
      touched again: later iterations swap only below their own position. */
  lemma {:induction false} ShuffledAboveSettles<T>(s: seq<T>, partners: seq<int>, j: int, k: int)
    requires 0 <= j < k < |s|
    requires ValidPartners(|s|, partners)
    ensures ShuffledAbove(s, partners, j)[k] == ShuffledAbove(s, partners, k - 1)[k]
    decreases k - j
  {
    if j < k - 1 {
      var prev := ShuffledAbove(s, partners, j + 1);
      ShuffledAboveSettles(s, partners, j + 1, k);
      assert ShuffledAbove(s, partners, j) == Swap(prev, j + 1, partners[j + 1]);
    }
  }

  /** `shuffleArray`: Fisher-Yates on a copy of the input, from the last
      position down to 1. The input is a value and is left as it was. */
  method ShuffleArray<T>(items: seq<T>, partners: seq<int>) returns (shuffled: seq<T>)
    requires ValidPartners(|items|, partners)
    ensures |shuffled| == |items|
    ensures multiset(shuffled) == multiset(items)
    ensures shuffled == FisherYates(items, partners)
  {
    shuffled := items;
    if |items| == 0 {
      return;
    }
    var i := |items| - 1;
    while i > 0
      invariant 0 <= i < |items|
      invariant shuffled == ShuffledAbove(items, partners, i)
    {
      var j := partners[i];
      assert ShuffledAbove(items, partners, i - 1) == Swap(shuffled, i, j);
      shuffled := Swap(shuffled, i, j);
      i := i - 1;
    }
    assert shuffled == ShuffledAbove(items, partners, 0);
    ShuffledAbovePermutes(items, partners, 0);
    assert multiset(shuffled) == multiset(items);
  }
}
