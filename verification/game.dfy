/** What round assembly and the letter grid promise together: every round
    App.tsx keeps can be solved with its tiles. */
module Game {
  import opened Wrappers
  import opened LetterGridUtils
  import opened LetterGrid

  /** `tiles` picks, for each letter of `word`, a different tile of `pool`
      showing that letter. */
  predicate Spells(word: string, pool: seq<char>, tiles: seq<int>) {
    && |tiles| == |word|
    && (forall i :: 0 <= i < |tiles| ==> 0 <= tiles[i] < |pool| && pool[tiles[i]] == word[i])
    && (forall i, j :: 0 <= i < j < |tiles| ==> tiles[i] != tiles[j])
  }

  /** A pool that holds the word's letters as a sub-multiset has, for every
      letter of the word, its own tile. */
  lemma {:induction false} PoolSpellsWord(word: string, pool: seq<char>) returns (tiles: seq<int>)
    requires multiset(word) <= multiset(pool)
    ensures Spells(word, pool, tiles)
    decreases |pool|
  {
    if |pool| == 0 {
      assert |multiset(word)| == 0;
      return [];
    }
    var last := |pool| - 1;
    var c := pool[last];
    var rest := pool[..last];
    RemoveAt(pool, last);
    assert pool[..last] + pool[last + 1..] == rest;
    if c in word {
      var i :| 0 <= i < |word| && word[i] == c;
      var shorter := word[..i] + word[i + 1..];
      RemoveAt(word, i);
      SubMultisetWithout(multiset(shorter), multiset(rest), c);
      var others := PoolSpellsWord(shorter, rest);
      tiles := others[..i] + [last] + others[i..];
      SpellsWithLastTile(shorter, rest, others, i, c);
      ReinsertAt(word, i);
    } else {
      SubMultisetWithout(multiset(word), multiset(rest), c);
      tiles := PoolSpellsWord(word, rest);
    }
  }

  /** Removing position `i` takes one copy of that element out of the
      multiset of a sequence. */
  lemma RemoveAt<T>(s: seq<T>, i: int)
    requires 0 <= i < |s|
    ensures multiset(s) == multiset(s[..i] + s[i + 1..]) + multiset{s[i]}
  {
    assert s == s[..i] + [s[i]] + s[i + 1..];
  }

  /** Putting the removed element back at `i` restores the sequence. */
  lemma ReinsertAt<T>(s: seq<T>, i: int)
    requires 0 <= i < |s|
    ensures s == (s[..i] + s[i + 1..])[..i] + [s[i]] + (s[..i] + s[i + 1..])[i..]
  {
    var shorter := s[..i] + s[i + 1..];
    assert shorter[..i] == s[..i];
    assert shorter[i..] == s[i + 1..];
  }

  /** One copy of `c` can be taken from both sides of a sub-multiset, and a
      side that holds no `c` can lose the other side's copy. */
  lemma SubMultisetWithout<T>(a: multiset<T>, b: multiset<T>, c: T)
    requires a + multiset{c} <= b + multiset{c} || (c !in a && a <= b + multiset{c})
    ensures a <= b
  {
    forall x ensures a[x] <= b[x] {
      assert (a + multiset{c})[x] == a[x] + multiset{c}[x];
      assert (b + multiset{c})[x] == b[x] + multiset{c}[x];
    }
  }

  /** Adding a tile `c` to the pool lets a spelling of a word spell the word
      with `c` inserted at position `i`, using the new tile there. */
  lemma SpellsWithLastTile(shorter: string, rest: seq<char>, others: seq<int>, i: int, c: char)
    requires Spells(shorter, rest, others)
    requires 0 <= i <= |shorter|
    ensures Spells(shorter[..i] + [c] + shorter[i..], rest + [c], others[..i] + [|rest|] + others[i..])
  {
    var word := shorter[..i] + [c] + shorter[i..];
    var pool := rest + [c];
    var tiles := others[..i] + [|rest|] + others[i..];
    forall k | 0 <= k < |tiles|
      ensures 0 <= tiles[k] < |pool| && pool[tiles[k]] == word[k]
    {
      if k < i {
        assert tiles[k] == others[k] && word[k] == shorter[k];
      } else if k > i {
        assert tiles[k] == others[k - 1] && word[k] == shorter[k - 1];
      }
    }
    forall a, b | 0 <= a < b < |tiles| ensures tiles[a] != tiles[b] {
      var a' := if a < i then a else a - 1;
      var b' := if b <= i then b else b - 1;
      assert a != i ==> tiles[a] == others[a'];
      assert b != i ==> tiles[b] == others[b'];
    }
  }

  // ---------------------------------------------------------------------------
  // Solving a round
  // ---------------------------------------------------------------------------

  /** A release at `p` aimed at slot `k`: the slot is measured, `p` is within
      MAX_DISTANCE of its centre, and strictly nearer to it than to every
      other measured slot. */
  predicate AimsAt(layout: Layout, p: Point, k: int) {
    && 0 <= k < |layout.answerTiles| && layout.answerTiles[k].Some?
    && SlotDistance(p, layout.answerTiles, k) <= MAX_SQUARED_REACH
    && forall j :: 0 <= j < |layout.answerTiles| && j != k && layout.answerTiles[j].Some? ==>
         SlotDistance(p, layout.answerTiles, k) < SlotDistance(p, layout.answerTiles, j)
  }

  /** The measured answer row has `n` slots, and `points[k]` is a release
      aimed at slot `k`, for every slot. */
  predicate Aimed(layout: Layout, points: seq<Point>, n: int) {
    && layout.containerMounted
    && |layout.answerTiles| == n
    && |points| == n
    && forall k :: 0 <= k < n ==> AimsAt(layout, points[k], k)
  }

  /** A release aimed at an empty slot lands in that slot. */
  lemma AimedDropLands(layout: Layout, p: Point, k: int, filled: seq<bool>)
    requires layout.containerMounted
    requires AimsAt(layout, p, k)
    requires |filled| == |layout.answerTiles| && !filled[k]
    ensures LandsIn(p, layout, filled, k)
  {
    var slots := layout.answerTiles;
    var n := |slots|;
    assert IsCandidate(slots, filled, k);
    assert forall j :: 0 <= j < n && IsCandidate(slots, filled, j) ==>
             SlotDistance(p, slots, k) <= SlotDistance(p, slots, j);
    assert forall j :: 0 <= j < k && IsCandidate(slots, filled, j) ==>
             SlotDistance(p, slots, k) < SlotDistance(p, slots, j);
    assert NearestAmong(p, slots, filled, n, k);
  }

  /** `n` answer slots in a row: slot `i` is 60 units square at `x = 100 * i`. */
  function RowLayout(n: int): (layout: Layout)
    ensures layout.containerMounted
    ensures |layout.answerTiles| == if n < 0 then 0 else n
    ensures forall i :: 0 <= i < |layout.answerTiles| ==> layout.answerTiles[i].Some?
  {
    Layout(true, seq(if n < 0 then 0 else n, i => Some(Rect(100 * i, 0, 60, 60))))
  }

  /** The centre of slot `i` of RowLayout. */
  function SlotCentre(i: int): (p: Point) {
    Point(100 * i + 30, 30)
  }

  /** Releasing on the centre of a slot of RowLayout aims at that slot: the
      slot is at distance 0 and every other slot's centre lies elsewhere. */
  lemma CentreAims(n: int, k: int)
    requires 0 <= k < n
    ensures AimsAt(RowLayout(n), SlotCentre(k), k)
  {
    var slots := RowLayout(n).answerTiles;
    var p := SlotCentre(k);
    assert Doubled(p) == Point(200 * k + 60, 60);
    assert slots[k] == Some(Rect(100 * k, 0, 60, 60));
    assert SlotDistance(p, slots, k) == 0;
    forall j | 0 <= j < n && j != k
      ensures SlotDistance(p, slots, j) > 0
    {
      assert slots[j] == Some(Rect(100 * j, 0, 60, 60));
      assert DoubledCenter(slots[j].value) == Point(200 * j + 60, 60);
    }
  }

  /** The aiming condition can be met: on RowLayout, releasing each tile on
      the centre of its slot aims at that slot. */
  lemma RowLayoutAimed(n: nat) returns (points: seq<Point>)
    ensures Aimed(RowLayout(n), points, n)
  {
    points := seq(n, k => SlotCentre(k));
    forall k | 0 <= k < n
      ensures AimsAt(RowLayout(n), points[k], k)
    {
      CentreAims(n, k);
    }
  }

  /** Dragging tile `tiles[i]` and releasing it at `points[i]`, for each `i`
      in turn. */
  function SolvingEvents(tiles: seq<int>, layout: Layout, points: seq<Point>): (events: seq<Event>)
    requires |tiles| <= |points|
    ensures |events| == |tiles|
    ensures forall i :: 0 <= i < |tiles| ==> events[i] == DragEnd(tiles[i], points[i], layout)
  {
    seq(|tiles|, i requires 0 <= i < |tiles| => DragEnd(tiles[i], points[i], layout))
  }

  /** The first `k` slots hold the first `k` letters of the word, the other
      slots are empty, and the tiles still to be placed are in the pool. */
  predicate Progress(props: Props, st: GridState, tiles: seq<int>, k: int)
    requires Spells(props.expectedAnswer, props.letters, tiles)
    requires WellSized(props, st)
  {
    && 0 <= k <= |props.expectedAnswer|
    && (forall s :: 0 <= s < |st.filledSpots| ==> (st.filledSpots[s] <==> s < k))
    && (forall s :: 0 <= s < k ==> st.currentAnswer[s] == [props.expectedAnswer[s]])
    && (forall i :: k <= i < |tiles| ==> !st.usedLetters[tiles[i]])
  }

  /** A consistent, settled state that has made progress `k`. */
  predicate SpelledUpTo(props: Props, st: GridState, tiles: seq<int>, k: int)
    requires Spells(props.expectedAnswer, props.letters, tiles)
  {
    && Consistent(props, st)
    && Settled(props, st)
    && Progress(props, st, tiles, k)
  }

  /** Placing tile `tiles[k]` into slot `k` advances the progress by one. */
  lemma PlaceProgresses(props: Props, st: GridState, tiles: seq<int>, k: int)
    requires Spells(props.expectedAnswer, props.letters, tiles)
    requires WellSized(props, st)
    requires Progress(props, st, tiles, k)
    requires k < |props.expectedAnswer|
    ensures Progress(props, Place(props, st, tiles[k], k), tiles, k + 1)
  {
    var r := Place(props, st, tiles[k], k);
    assert r.currentAnswer[k] == [props.expectedAnswer[k]];
    forall i | k + 1 <= i < |tiles|
      ensures !r.usedLetters[tiles[i]]
    {
      assert tiles[k] != tiles[i];
    }
  }

  /** The `k`-th solving drop places tile `tiles[k]` into slot `k`. */
  lemma SolvingDropPlaces(props: Props, st: GridState, tiles: seq<int>, layout: Layout, points: seq<Point>, k: int)
    requires Spells(props.expectedAnswer, props.letters, tiles)
    requires |props.letters| <= RENDERED_TILES
    requires Aimed(layout, points, |props.expectedAnswer|)
    requires SpelledUpTo(props, st, tiles, k)
    requires k < |props.expectedAnswer|
    ensures Enabled(props, st, SolvingEvents(tiles, layout, points)[k])
    ensures Step(props, st, SolvingEvents(tiles, layout, points)[k])
            == Revalidate(props, Place(props, st, tiles[k], k))
  {
    var ev := SolvingEvents(tiles, layout, points)[k];
    assert ev == DragEnd(tiles[k], points[k], layout);
    AimedDropLands(layout, points[k], k, st.filledSpots);
  }

  /** Releasing the next tile aimed at the next slot lands it there. */
  lemma SolveStep(props: Props, st: GridState, tiles: seq<int>, layout: Layout, points: seq<Point>, k: int)
    requires Spells(props.expectedAnswer, props.letters, tiles)
    requires |props.letters| <= RENDERED_TILES
    requires Aimed(layout, points, |props.expectedAnswer|)
    requires SpelledUpTo(props, st, tiles, k)
    requires k < |props.expectedAnswer|
    ensures Enabled(props, st, SolvingEvents(tiles, layout, points)[k])
    ensures SpelledUpTo(props, Step(props, st, SolvingEvents(tiles, layout, points)[k]), tiles, k + 1)
  {
    var ev := SolvingEvents(tiles, layout, points)[k];
    SolvingDropPlaces(props, st, tiles, layout, points, k);
    StepPreservesConsistency(props, st, ev);
    PlaceProgresses(props, st, tiles, k);
  }

  /** Playing the remaining solving drops from a state spelled up to `k`
      ends with the answer judged correct. */
  lemma {:induction false} SolveFrom(props: Props, st: GridState, tiles: seq<int>, layout: Layout, points: seq<Point>, k: int)
    requires Spells(props.expectedAnswer, props.letters, tiles)
    requires |props.letters| <= RENDERED_TILES
    requires Aimed(layout, points, |props.expectedAnswer|)
    requires SpelledUpTo(props, st, tiles, k)
    ensures Run(props, st, SolvingEvents(tiles, layout, points)[k..]).isValid == Some(true)
    decreases |props.expectedAnswer| - k
  {
    var n := |props.expectedAnswer|;
    var events := SolvingEvents(tiles, layout, points);
    if k == n {
      assert events[k..] == [];
      FullySpelledIsValid(props, st, tiles);
    } else {
      SolveStep(props, st, tiles, layout, points, k);
      var next := Step(props, st, events[k]);
      assert events[k..][1..] == events[k + 1..];
      assert Run(props, st, events[k..]) == Run(props, next, events[k + 1..]);
      SolveFrom(props, next, tiles, layout, points, k + 1);
    }
  }

  /** With every slot holding its letter of the word, the settled verdict is
      "correct". */
  lemma FullySpelledIsValid(props: Props, st: GridState, tiles: seq<int>)
    requires Spells(props.expectedAnswer, props.letters, tiles)
    requires SpelledUpTo(props, st, tiles, |props.expectedAnswer|)
    ensures st.isValid == Some(true)
  {
    ValidateAnswerPerSlot(st.currentAnswer, props.expectedAnswer, st.filledSpots);
  }

  /** Every round App.tsx keeps is solvable on whatever layout the answer row
      was measured with: when the tiles hold the word's letters (as the
      assembled pool does), dragging one tile per letter and releasing it
      aimed at the next slot makes the grid judge the answer correct. */
  lemma RoundCanBeSolved(props: Props, layout: Layout, points: seq<Point>) returns (events: seq<Event>)
    requires multiset(props.expectedAnswer) <= multiset(props.letters)
    requires |props.letters| <= RENDERED_TILES
    requires Aimed(layout, points, |props.expectedAnswer|)
    ensures |events| == |props.expectedAnswer|
    ensures forall k :: 0 <= k < |events| ==>
              events[k].DragEnd? && events[k].at == points[k] && events[k].layout == layout
    ensures Run(props, Mount(props), events).isValid == Some(true)
  {
    var tiles := PoolSpellsWord(props.expectedAnswer, props.letters);
    events := SolvingEvents(tiles, layout, points);
    assert events[0..] == events;
    SolveFrom(props, Mount(props), tiles, layout, points, 0);
  }
}
