/** The pure helpers of the letter grid (utils/letterGridUtils.ts): the
    distance between a drop point and a slot, the nearest-slot search and the
    answer check. */
module LetterGridUtils {
  import opened Wrappers

  /** A point in page coordinates, as a pan gesture reports it on release.
      Coordinates are whole layout units (see README). */
  datatype Point = Point(x: int, y: int)

  /** What `measure` reports for a laid-out answer slot: page origin and size. */
  datatype Rect = Rect(pageX: int, pageY: int, width: int, height: int)

  /** The largest distance, in layout units, at which a drop still lands. */
  const MAX_DISTANCE: int := 100

  /** A point doubled: the same place counted in half-units. */
  function Doubled(p: Point): (q: Point)
    ensures q.x == 2 * p.x && q.y == 2 * p.y
  {
    Point(2 * p.x, 2 * p.y)
  }

  /** The centre `pageX + width / 2, pageY + height / 2` of a measured slot,
      counted in half-units so that it is exact for odd sizes. */
  function DoubledCenter(r: Rect): (c: Point)
    ensures c.x - 2 * r.pageX == 2 * (r.pageX + r.width) - c.x
    ensures c.y - 2 * r.pageY == 2 * (r.pageY + r.height) - c.y
  {
    Point(2 * r.pageX + r.width, 2 * r.pageY + r.height)
  }

  /** `calculateDistance`, squared. The square root is left out because it is
      monotone on non-negative numbers: SourceComparisonsAgree shows that
      every comparison the source makes on roots gives the same answer on
      these squares. */
  function CalculateDistance(x1: int, y1: int, x2: int, y2: int): (d: int)
    ensures d >= 0
    ensures d == 0 <==> x1 == x2 && y1 == y2
  {
    (x2 - x1) * (x2 - x1) + (y2 - y1) * (y2 - y1)
  }

  /** The distance does not depend on which point comes first. */
  lemma DistanceSymmetric(x1: int, y1: int, x2: int, y2: int)
    ensures CalculateDistance(x1, y1, x2, y2) == CalculateDistance(x2, y2, x1, y1)
  {
    assert (x2 - x1) * (x2 - x1) == (x1 - x2) * (x1 - x2);
    assert (y2 - y1) * (y2 - y1) == (y1 - y2) * (y1 - y2);
  }

  /** Squaring keeps the strict order of non-negative numbers, so comparing
      two `Math.sqrt` results is comparing what was under the roots. */
  lemma RootOrder(r1: real, r2: real)
    requires r1 >= 0.0 && r2 >= 0.0
    ensures r1 < r2 <==> r1 * r1 < r2 * r2
  {
    assert r2 * r2 - r1 * r1 == (r2 - r1) * (r2 + r1);
    if r1 < r2 {
      PositiveProduct(r2 - r1, r2 + r1);
    } else if r2 < r1 {
      PositiveProduct(r1 - r2, r1 + r2);
    }
  }

  lemma PositiveProduct(a: real, b: real)
    requires a > 0.0 && b > 0.0
    ensures a * b > 0.0
  {
  }

  /** The squared distance in half-units that MAX_DISTANCE becomes. */
  const MAX_SQUARED_REACH: int := (2 * MAX_DISTANCE) * (2 * MAX_DISTANCE)

  /** A distance `r` (in layout units) is within MAX_DISTANCE exactly when the
      square of `2 * r`, the distance in half-units, is within MAX_SQUARED_REACH. */
  lemma RootThreshold(r: real)
    requires r >= 0.0
    ensures r <= MAX_DISTANCE as real <==> (2.0 * r) * (2.0 * r) <= MAX_SQUARED_REACH as real
  {
    RootOrder(2.0 * MAX_DISTANCE as real, 2.0 * r);
  }

  // ---------------------------------------------------------------------------
  // Nearest-slot search
  // ---------------------------------------------------------------------------

  /** `filledSpots[i]` read the JavaScript way: past the end it is
      `undefined`, which is falsy. */
  predicate FilledAt(filled: seq<bool>, i: int) {
    0 <= i < |filled| && filled[i]
  }

  /** Slot `i` can receive a drop: its view exists and it is still empty. */
  predicate IsCandidate(slots: seq<Option<Rect>>, filled: seq<bool>, i: int) {
    0 <= i < |slots| && slots[i].Some? && !FilledAt(filled, i)
  }

  /** Squared distance, in half-units, from the drop point to the centre of
      slot `i`: four times the squared distance in layout units. */
  function SlotDistance(p: Point, slots: seq<Option<Rect>>, i: int): (d: int)
    requires 0 <= i < |slots| && slots[i].Some?
    ensures d >= 0
  {
    var q := Doubled(p);
    var c := DoubledCenter(slots[i].value);
    CalculateDistance(q.x, q.y, c.x, c.y)
  }

  /** The square of the distance the source computes from the drop point to
      the centre `pageX + width / 2, pageY + height / 2` of a slot, in exact
      (real) arithmetic; `Math.sqrt` of it is the source's `distance`. */
  function SourceSquared(p: Point, r: Rect): (d: real)
    ensures d >= 0.0
  {
    var dx := p.x as real - (r.pageX as real + r.width as real / 2.0);
    var dy := p.y as real - (r.pageY as real + r.height as real / 2.0);
    dx * dx + dy * dy
  }

  /** Halving both sides of a difference quarters its square. */
  lemma HalfSquare(a: int, b: int)
    ensures ((2 * a - b) * (2 * a - b)) as real == 4.0 * ((a as real - b as real / 2.0) * (a as real - b as real / 2.0))
  {
    var e := a as real - b as real / 2.0;
    assert (2 * a - b) as real == 2.0 * e;
  }

  /** SlotDistance is exactly four times the source's squared distance, also
      for odd-sized slots whose centre lies on a half unit. */
  lemma SlotDistanceIsSourceSquared(p: Point, slots: seq<Option<Rect>>, i: int)
    requires 0 <= i < |slots| && slots[i].Some?
    ensures SlotDistance(p, slots, i) as real == 4.0 * SourceSquared(p, slots[i].value)
  {
    var r := slots[i].value;
    var wx := 2 * r.pageX + r.width;
    var wy := 2 * r.pageY + r.height;
    assert (wx - 2 * p.x) * (wx - 2 * p.x) == (2 * p.x - wx) * (2 * p.x - wx);
    assert (wy - 2 * p.y) * (wy - 2 * p.y) == (2 * p.y - wy) * (2 * p.y - wy);
    HalfSquare(p.x, wx);
    HalfSquare(p.y, wy);
    assert p.x as real - wx as real / 2.0 == p.x as real - (r.pageX as real + r.width as real / 2.0);
    assert p.y as real - wy as real / 2.0 == p.y as real - (r.pageY as real + r.height as real / 2.0);
  }

  /** Let `di` and `dj` be the `Math.sqrt` results the source computes for slots
      `i` and `j`. Then its strict `<` between them and its `<= MAX_DISTANCE`
      test give the same answers as the model's comparisons of SlotDistance. */
  lemma SourceComparisonsAgree(p: Point, slots: seq<Option<Rect>>, i: int, j: int, di: real, dj: real)
    requires 0 <= i < |slots| && slots[i].Some?
    requires 0 <= j < |slots| && slots[j].Some?
    requires di >= 0.0 && di * di == SourceSquared(p, slots[i].value)
    requires dj >= 0.0 && dj * dj == SourceSquared(p, slots[j].value)
    ensures di < dj <==> SlotDistance(p, slots, i) < SlotDistance(p, slots, j)
    ensures di <= MAX_DISTANCE as real <==> SlotDistance(p, slots, i) <= MAX_SQUARED_REACH
  {
    SlotDistanceIsSourceSquared(p, slots, i);
    SlotDistanceIsSourceSquared(p, slots, j);
    RootOrder(di, dj);
    RootThreshold(di);
    assert (2.0 * di) * (2.0 * di) == 4.0 * (di * di);
  }

  /** `r` is what a left-to-right search with strict `<` must answer after
      looking at the first `n` slots: -1 when none of them is a candidate,
      otherwise a candidate at least as close as every other candidate and
      strictly closer than every candidate before it. */
  predicate NearestAmong(p: Point, slots: seq<Option<Rect>>, filled: seq<bool>, n: int, r: int)
    requires 0 <= n <= |slots|
  {
    if r == -1 then
      forall j :: 0 <= j < n ==> !IsCandidate(slots, filled, j)
    else
      && 0 <= r < n
      && IsCandidate(slots, filled, r)
      && (forall j :: 0 <= j < n && IsCandidate(slots, filled, j) ==>
            SlotDistance(p, slots, r) <= SlotDistance(p, slots, j))
      && (forall j :: 0 <= j < r && IsCandidate(slots, filled, j) ==>
            SlotDistance(p, slots, r) < SlotDistance(p, slots, j))
  }

  /** The running minimum of the search: `Infinity` (None) while nothing has
      been chosen, otherwise the distance of the chosen slot. */
  predicate TracksMin(p: Point, slots: seq<Option<Rect>>, nearest: int, minDistance: Option<int>) {
    if nearest == -1 then minDistance.None?
    else 0 <= nearest < |slots| && slots[nearest].Some? &&
         minDistance == Some(SlotDistance(p, slots, nearest))
  }

  /** The search has at most one answer: the specification fixes the result. */
  lemma NearestUnique(p: Point, slots: seq<Option<Rect>>, filled: seq<bool>, n: int, r1: int, r2: int)
    requires 0 <= n <= |slots|
    requires NearestAmong(p, slots, filled, n, r1)
    requires NearestAmong(p, slots, filled, n, r2)
    ensures r1 == r2
  {
    if r1 != -1 && r2 != -1 {
      assert SlotDistance(p, slots, r1) <= SlotDistance(p, slots, r2);
      assert SlotDistance(p, slots, r2) <= SlotDistance(p, slots, r1);
    }
  }

  /** `findNearestSpot` of utils/letterGridUtils.ts: one pass over the slots,
      skipping absent and filled ones, keeping the first strictly closest. */
  method FindNearestSpot(p: Point, answerTiles: seq<Option<Rect>>, filledSpots: seq<bool>)
    returns (nearestSpot: int)
    ensures nearestSpot == -1 || IsCandidate(answerTiles, filledSpots, nearestSpot)
    ensures nearestSpot == -1 <==> forall j :: 0 <= j < |answerTiles| ==> !IsCandidate(answerTiles, filledSpots, j)
    ensures NearestAmong(p, answerTiles, filledSpots, |answerTiles|, nearestSpot)
  {
    nearestSpot := -1;
    var minDistance: Option<int> := None;
    var i := 0;
    while i < |answerTiles|
      invariant 0 <= i <= |answerTiles|
      invariant NearestAmong(p, answerTiles, filledSpots, i, nearestSpot)
      invariant TracksMin(p, answerTiles, nearestSpot, minDistance)
    {
      if answerTiles[i].Some? && !FilledAt(filledSpots, i) {
        var distance := SlotDistance(p, answerTiles, i);
        if minDistance.None? || distance < minDistance.value {
          minDistance := Some(distance);
          nearestSpot := i;
        }
      }
      i := i + 1;
    }
  }

  // ---------------------------------------------------------------------------
  // Answer check
  // ---------------------------------------------------------------------------

  /** `Array.prototype.join("")`: the entries concatenated in order. */
  function Join(parts: seq<string>): (joined: string) {
    if |parts| == 0 then "" else Join(parts[..|parts| - 1]) + parts[|parts| - 1]
  }

  predicate AllFilled(filled: seq<bool>) {
    forall i :: 0 <= i < |filled| ==> filled[i]
  }

  /** `validateAnswer`: null (None) unless every slot is filled, then whether
      the slots spell the expected answer. */
  function ValidateAnswer(currentAnswer: seq<string>, expectedAnswer: string, filledSpots: seq<bool>): (r: Option<bool>)
    ensures r.None? <==> exists i :: 0 <= i < |filledSpots| && !filledSpots[i]
    ensures r.Some? ==> (r.value <==> Join(currentAnswer) == expectedAnswer)
  {
    if !AllFilled(filledSpots) then None else Some(Join(currentAnswer) == expectedAnswer)
  }

  /** Joining one-character entries lays them out character by character. */
  lemma {:induction false} JoinSingletons(parts: seq<string>)
    requires forall i :: 0 <= i < |parts| ==> |parts[i]| == 1
    ensures |Join(parts)| == |parts|
    ensures forall i :: 0 <= i < |parts| ==> Join(parts)[i] == parts[i][0]
  {
    if |parts| > 0 {
      JoinSingletons(parts[..|parts| - 1]);
    }
  }

  /** With every slot filled by one letter, the answer is correct exactly when
      slot `i` holds the `i`-th letter of the expected word, for every `i`, and
      there are as many slots as letters. */
  lemma ValidateAnswerPerSlot(currentAnswer: seq<string>, expectedAnswer: string, filledSpots: seq<bool>)
    requires AllFilled(filledSpots)
    requires forall i :: 0 <= i < |currentAnswer| ==> |currentAnswer[i]| == 1
    ensures ValidateAnswer(currentAnswer, expectedAnswer, filledSpots) == Some(true) <==>
              |currentAnswer| == |expectedAnswer| &&
              forall i :: 0 <= i < |currentAnswer| ==> currentAnswer[i] == [expectedAnswer[i]]
  {
    JoinSingletons(currentAnswer);
    var w := Join(currentAnswer);
    if |currentAnswer| == |expectedAnswer| && forall i :: 0 <= i < |currentAnswer| ==> currentAnswer[i] == [expectedAnswer[i]] {
      assert forall i :: 0 <= i < |w| ==> w[i] == expectedAnswer[i];
      assert w == expectedAnswer;
    }
    if w == expectedAnswer {
      forall i | 0 <= i < |currentAnswer|
        ensures currentAnswer[i] == [expectedAnswer[i]]
      {
        assert currentAnswer[i] == [currentAnswer[i][0]];
      }
    }
  }
}
