/** The answer/tile bookkeeping of the letter-drag component
    (components/LetterGrid.tsx): four parallel arrays and the tri-state
    validation flag, the drop, return and reset transitions, and the
    invariant that ties slots and tiles together. */
module LetterGrid {
  import opened Wrappers
  import opened LetterGridUtils

  /** The value `letterToSpotMap` holds for a tile that sits in the pool. */
  const NO_SPOT: int := -1

  /** Tiles are drawn in two rows of six; only these carry a drag gesture. */
  const RENDERED_TILES: int := 12

  /** The component's props: the tile letters and the word to spell. */
  datatype Props = Props(letters: seq<char>, expectedAnswer: string)

  /** The component's state. `filledSpots` and `currentAnswer` are indexed by
      answer slot, `usedLetters` and `letterToSpotMap` by tile; `isValid` is
      null (None) until a full answer has been checked. */
  datatype GridState = GridState(
    filledSpots: seq<bool>,
    currentAnswer: seq<string>,
    usedLetters: seq<bool>,
    letterToSpotMap: seq<int>,
    isValid: Option<bool>)

  /** The geometry a drop sees: whether the answer container is mounted, and
      the measured rectangle of each answer slot (None: no view yet). */
  datatype Layout = Layout(containerMounted: bool, answerTiles: seq<Option<Rect>>)

  /** The arrays have the lengths the component gives them. */
  predicate WellSized(props: Props, st: GridState) {
    && |st.filledSpots| == |props.expectedAnswer|
    && |st.currentAnswer| == |props.expectedAnswer|
    && |st.usedLetters| == |props.letters|
    && |st.letterToSpotMap| == |props.letters|
  }

  /** The state the component starts from, and the one reset returns to. */
  function Initial(props: Props): (st: GridState)
    ensures WellSized(props, st)
    ensures forall s :: 0 <= s < |st.filledSpots| ==> !st.filledSpots[s] && st.currentAnswer[s] == ""
    ensures forall t :: 0 <= t < |st.usedLetters| ==> !st.usedLetters[t] && st.letterToSpotMap[t] == NO_SPOT
    ensures st.isValid == None
  {
    GridState(
      seq(|props.expectedAnswer|, _ => false),
      seq(|props.expectedAnswer|, _ => ""),
      seq(|props.letters|, _ => false),
      seq(|props.letters|, _ => NO_SPOT),
      None)
  }

  // ---------------------------------------------------------------------------
  // The invariant
  // ---------------------------------------------------------------------------

  /** Slots and tiles agree: a tile is used exactly when it maps to a slot;
      a mapped tile's slot is filled with that tile's letter; no two tiles map
      to one slot; every filled slot has a tile mapped to it; an empty slot
      shows nothing; and a non-null `isValid` is the verdict on the full
      answer. */
  predicate Consistent(props: Props, st: GridState) {
    && WellSized(props, st)
    && (forall t :: 0 <= t < |st.usedLetters| ==>
          (st.usedLetters[t] <==> st.letterToSpotMap[t] != NO_SPOT))
    && (forall t :: 0 <= t < |st.letterToSpotMap| && st.letterToSpotMap[t] != NO_SPOT ==>
          && 0 <= st.letterToSpotMap[t] < |st.filledSpots|
          && st.filledSpots[st.letterToSpotMap[t]]
          && st.currentAnswer[st.letterToSpotMap[t]] == [props.letters[t]])
    && (forall t1, t2 :: 0 <= t1 < t2 < |st.letterToSpotMap| && st.letterToSpotMap[t1] != NO_SPOT ==>
          st.letterToSpotMap[t1] != st.letterToSpotMap[t2])
    && (forall s :: 0 <= s < |st.filledSpots| && st.filledSpots[s] ==> s in st.letterToSpotMap)
    && (forall s :: 0 <= s < |st.filledSpots| && !st.filledSpots[s] ==> st.currentAnswer[s] == "")
    && (st.isValid.Some? ==> st.isValid == ValidateAnswer(st.currentAnswer, props.expectedAnswer, st.filledSpots))
  }

  /** The invariant read slot by slot: slot `s` is filled exactly when some
      tile maps to it, and then exactly one does, is used, and shows its
      letter there. */
  lemma SlotOwnedByExactlyOneTile(props: Props, st: GridState, s: int)
    requires Consistent(props, st)
    requires 0 <= s < |st.filledSpots|
    ensures st.filledSpots[s] <==> exists t :: 0 <= t < |st.letterToSpotMap| && st.letterToSpotMap[t] == s
    ensures forall t1, t2 ::
              (0 <= t1 < |st.letterToSpotMap| && 0 <= t2 < |st.letterToSpotMap| &&
               st.letterToSpotMap[t1] == s && st.letterToSpotMap[t2] == s) ==> t1 == t2
    ensures forall t :: 0 <= t < |st.letterToSpotMap| && st.letterToSpotMap[t] == s ==>
              st.usedLetters[t] && st.currentAnswer[s] == [props.letters[t]]
  {
    if st.filledSpots[s] {
      var t :| 0 <= t < |st.letterToSpotMap| && st.letterToSpotMap[t] == s;
    }
  }

  lemma InitialConsistent(props: Props)
    ensures Consistent(props, Initial(props))
  {
  }

  // ---------------------------------------------------------------------------
  // Drop
  // ---------------------------------------------------------------------------

  /** The component's own `findNearestSpot`: -1 while the answer container is
      not mounted, otherwise the recursive `measureNextSpot` walk from slot 0
      with nothing chosen and an infinite running minimum. */
  function FindNearestSpot(p: Point, layout: Layout, filledSpots: seq<bool>): (r: int)
    ensures !layout.containerMounted ==> r == -1
    ensures layout.containerMounted ==> NearestAmong(p, layout.answerTiles, filledSpots, |layout.answerTiles|, r)
  {
    if !layout.containerMounted then -1
    else MeasureNextSpot(p, layout.answerTiles, filledSpots, 0, -1, None)
  }

  /** `measureNextSpot`: the search continued from slot `i`, given the choice
      `nearest` and running minimum `minDistance` over the slots before it. */
  function MeasureNextSpot(p: Point, slots: seq<Option<Rect>>, filled: seq<bool>,
                           i: int, nearest: int, minDistance: Option<int>): (r: int)
    requires 0 <= i <= |slots|
    requires NearestAmong(p, slots, filled, i, nearest)
    requires TracksMin(p, slots, nearest, minDistance)
    ensures NearestAmong(p, slots, filled, |slots|, r)
    decreases |slots| - i
  {
    if i >= |slots| then nearest
    else if slots[i].None? || FilledAt(filled, i) then
      MeasureNextSpot(p, slots, filled, i + 1, nearest, minDistance)
    else
      var distance := SlotDistance(p, slots, i);
      if minDistance.None? || distance < minDistance.value then
        MeasureNextSpot(p, slots, filled, i + 1, i, Some(distance))
      else
        MeasureNextSpot(p, slots, filled, i + 1, nearest, minDistance)
  }

  /** Anything that meets the contract of the utility `findNearestSpot` is
      what the component's copy answers: the two copies agree. */
  lemma SearchesAgree(p: Point, layout: Layout, filledSpots: seq<bool>, r: int)
    requires layout.containerMounted
    requires NearestAmong(p, layout.answerTiles, filledSpots, |layout.answerTiles|, r)
    ensures FindNearestSpot(p, layout, filledSpots) == r
  {
    var r' := FindNearestSpot(p, layout, filledSpots);
    NearestUnique(p, layout.answerTiles, filledSpots, |layout.answerTiles|, r, r');
  }

  /** A drop at `p` lands in slot `s`: `s` is the nearest open slot and lies
      within MAX_DISTANCE of the drop point. */
  predicate LandsIn(p: Point, layout: Layout, filledSpots: seq<bool>, s: int) {
    && layout.containerMounted
    && 0 <= s < |layout.answerTiles|
    && NearestAmong(p, layout.answerTiles, filledSpots, |layout.answerTiles|, s)
    && SlotDistance(p, layout.answerTiles, s) <= MAX_SQUARED_REACH
  }

  /** Tile `index` placed into slot `s`: the slot is filled with the tile's
      letter, the tile is used and mapped to the slot, and no other entry of
      any array changes. */
  function Place(props: Props, st: GridState, index: int, s: int): (r: GridState)
    requires WellSized(props, st)
    requires 0 <= index < |props.letters|
    requires 0 <= s < |st.filledSpots|
    ensures WellSized(props, r)
    ensures r.filledSpots[s] && r.currentAnswer[s] == [props.letters[index]]
    ensures r.usedLetters[index] && r.letterToSpotMap[index] == s
    ensures forall i :: 0 <= i < |r.filledSpots| && i != s ==>
              r.filledSpots[i] == st.filledSpots[i] && r.currentAnswer[i] == st.currentAnswer[i]
    ensures forall t :: 0 <= t < |r.usedLetters| && t != index ==>
              r.usedLetters[t] == st.usedLetters[t] && r.letterToSpotMap[t] == st.letterToSpotMap[t]
    ensures r.isValid == st.isValid
  {
    st.(filledSpots := st.filledSpots[s := true],
        currentAnswer := st.currentAnswer[s := [props.letters[index]]],
        usedLetters := st.usedLetters[index := true],
        letterToSpotMap := st.letterToSpotMap[index := s])
  }

  /** `handleLetterDrop` for tile `index` released at `p`: when the drop lands
      in a slot the tile is placed there; otherwise (no open slot, container
      not mounted, or farther than MAX_DISTANCE) nothing changes. */
  function HandleLetterDrop(props: Props, st: GridState, layout: Layout, index: int, p: Point): (r: GridState)
    requires WellSized(props, st)
    requires |layout.answerTiles| == |st.filledSpots|
    requires 0 <= index < |props.letters|
    ensures forall s :: LandsIn(p, layout, st.filledSpots, s) ==> r == Place(props, st, index, s)
    ensures (forall s :: !LandsIn(p, layout, st.filledSpots, s)) ==> r == st
  {
    var nearestSpot := FindNearestSpot(p, layout, st.filledSpots);
    if nearestSpot != -1 && SlotDistance(p, layout.answerTiles, nearestSpot) <= MAX_SQUARED_REACH then
      assert LandsIn(p, layout, st.filledSpots, nearestSpot);
      LandsInUnique(p, layout, st.filledSpots, nearestSpot);
      Place(props, st, index, nearestSpot)
    else
      assert forall s :: !LandsIn(p, layout, st.filledSpots, s) by {
        forall s | LandsIn(p, layout, st.filledSpots, s) ensures false {
          NearestUnique(p, layout.answerTiles, st.filledSpots, |layout.answerTiles|, s, nearestSpot);
        }
      }
      st
  }

  /** At most one slot receives a drop. */
  lemma LandsInUnique(p: Point, layout: Layout, filledSpots: seq<bool>, s: int)
    requires LandsIn(p, layout, filledSpots, s)
    ensures forall s' :: LandsIn(p, layout, filledSpots, s') ==> s' == s
  {
    forall s' | LandsIn(p, layout, filledSpots, s') ensures s' == s {
      NearestUnique(p, layout.answerTiles, filledSpots, |layout.answerTiles|, s, s');
    }
  }

  /** A used tile dropped again is impossible (its gesture is not rendered),
      so every drop the component sees keeps the invariant. */
  lemma DropPreservesConsistency(props: Props, st: GridState, layout: Layout, index: int, p: Point)
    requires Consistent(props, st)
    requires |layout.answerTiles| == |st.filledSpots|
    requires 0 <= index < |props.letters|
    requires !st.usedLetters[index]
    ensures Consistent(props, HandleLetterDrop(props, st, layout, index, p))
  {
    var r := HandleLetterDrop(props, st, layout, index, p);
    if s :| LandsIn(p, layout, st.filledSpots, s) {
      assert r == Place(props, st, index, s);
      assert !st.filledSpots[s];
      assert st.letterToSpotMap[index] == NO_SPOT;
      assert st.isValid == None;
      forall t | 0 <= t < |r.letterToSpotMap| && r.letterToSpotMap[t] != NO_SPOT
        ensures 0 <= r.letterToSpotMap[t] < |r.filledSpots|
        ensures r.filledSpots[r.letterToSpotMap[t]]
        ensures r.currentAnswer[r.letterToSpotMap[t]] == [props.letters[t]]
      {
        if t != index {
          assert st.letterToSpotMap[t] != s;
        }
      }
      forall s' | 0 <= s' < |r.filledSpots| && r.filledSpots[s']
        ensures s' in r.letterToSpotMap
      {
        if s' == s {
          assert r.letterToSpotMap[index] == s;
        } else {
          var t :| 0 <= t < |st.letterToSpotMap| && st.letterToSpotMap[t] == s';
          assert r.letterToSpotMap[t] == s';
        }
      }
    }
  }

  // ---------------------------------------------------------------------------
  // Return
  // ---------------------------------------------------------------------------

  /** `t` is the first position of `m` that holds `v`. */
  predicate FirstIndexOf(m: seq<int>, v: int, t: int) {
    0 <= t < |m| && m[t] == v && forall k :: 0 <= k < t ==> m[k] != v
  }

  /** `Array.prototype.findIndex` for a value: the first position holding
      `v`, or -1 when there is none. */
  function FindIndex(m: seq<int>, v: int): (t: int)
    ensures t == -1 <==> v !in m
    ensures t != -1 ==> FirstIndexOf(m, v, t)
  {
    if |m| == 0 then -1
    else if m[0] == v then 0
    else
      var k := FindIndex(m[1..], v);
      if k == -1 then -1 else k + 1
  }

  /** Tile `t` taken out of slot `s`: the slot is emptied, the tile goes back
      to the pool, the verdict is cleared, and nothing else changes. */
  function Unplace(props: Props, st: GridState, t: int, s: int): (r: GridState)
    requires WellSized(props, st)
    requires 0 <= t < |props.letters|
    requires 0 <= s < |st.filledSpots|
    ensures WellSized(props, r)
    ensures !r.filledSpots[s] && r.currentAnswer[s] == ""
    ensures !r.usedLetters[t] && r.letterToSpotMap[t] == NO_SPOT
    ensures forall i :: 0 <= i < |r.filledSpots| && i != s ==>
              r.filledSpots[i] == st.filledSpots[i] && r.currentAnswer[i] == st.currentAnswer[i]
    ensures forall u :: 0 <= u < |r.usedLetters| && u != t ==>
              r.usedLetters[u] == st.usedLetters[u] && r.letterToSpotMap[u] == st.letterToSpotMap[u]
    ensures r.isValid == None
  {
    GridState(
      st.filledSpots[s := false],
      st.currentAnswer[s := ""],
      st.usedLetters[t := false],
      st.letterToSpotMap[t := NO_SPOT],
      None)
  }

  /** `handleReturnLetter` for slot `spotIndex`: a no-op when no tile maps to
      the slot; otherwise the first tile mapped to it is taken out. */
  function HandleReturnLetter(props: Props, st: GridState, spotIndex: int): (r: GridState)
    requires WellSized(props, st)
    requires 0 <= spotIndex < |st.filledSpots|
    ensures spotIndex !in st.letterToSpotMap ==> r == st
    ensures forall t :: FirstIndexOf(st.letterToSpotMap, spotIndex, t) ==> r == Unplace(props, st, t, spotIndex)
  {
    var letterIndex := FindIndex(st.letterToSpotMap, spotIndex);
    if letterIndex == -1 then st
    else
      Unplace(props, st, letterIndex, spotIndex)
  }

  /** Returning a letter keeps the invariant: the slot's only tile goes back
      to the pool together with it. */
  lemma ReturnPreservesConsistency(props: Props, st: GridState, spotIndex: int)
    requires Consistent(props, st)
    requires 0 <= spotIndex < |st.filledSpots|
    ensures Consistent(props, HandleReturnLetter(props, st, spotIndex))
  {
    var r := HandleReturnLetter(props, st, spotIndex);
    if spotIndex in st.letterToSpotMap {
      var t := FindIndex(st.letterToSpotMap, spotIndex);
      assert r == Unplace(props, st, t, spotIndex);
      forall u | 0 <= u < |r.letterToSpotMap| && r.letterToSpotMap[u] != NO_SPOT
        ensures r.letterToSpotMap[u] != spotIndex
      {
        if u < t {
          assert st.letterToSpotMap[u] != st.letterToSpotMap[t];
        } else if t < u {
          assert st.letterToSpotMap[t] != st.letterToSpotMap[u];
        }
      }
      forall s' | 0 <= s' < |r.filledSpots| && r.filledSpots[s']
        ensures s' in r.letterToSpotMap
      {
        var u :| 0 <= u < |st.letterToSpotMap| && st.letterToSpotMap[u] == s';
        assert r.letterToSpotMap[u] == s';
      }
    }
  }

  // ---------------------------------------------------------------------------
  // Validation effect and the event loop
  // ---------------------------------------------------------------------------

  /** The component's `validateAnswer`, run by the effect after every change
      of the answer: with every slot filled it records whether the slots
      spell the word; otherwise it leaves `isValid` as it was. */
  function Revalidate(props: Props, st: GridState): (r: GridState)
    ensures r.filledSpots == st.filledSpots && r.currentAnswer == st.currentAnswer
    ensures r.usedLetters == st.usedLetters && r.letterToSpotMap == st.letterToSpotMap
    ensures AllFilled(st.filledSpots) ==> r.isValid.Some?
    ensures !AllFilled(st.filledSpots) ==> r.isValid == st.isValid
  {
    if AllFilled(st.filledSpots) then
      st.(isValid := Some(Join(st.currentAnswer) == props.expectedAnswer))
    else st
  }

  /** `isValid` is exactly what the utility `validateAnswer` answers. */
  predicate Settled(props: Props, st: GridState) {
    st.isValid == ValidateAnswer(st.currentAnswer, props.expectedAnswer, st.filledSpots)
  }

  /** On a consistent state the component's check and the utility's agree:
      after the effect `isValid` is null exactly when a slot is empty, and
      otherwise says whether the slots spell the word. */
  lemma RevalidateSettles(props: Props, st: GridState)
    requires Consistent(props, st)
    ensures Consistent(props, Revalidate(props, st))
    ensures Settled(props, Revalidate(props, st))
  {
  }

  /** The component as first shown: initial state, then the effect's check. */
  function Mount(props: Props): (st: GridState)
    ensures Consistent(props, st) && Settled(props, st)
  {
    InitialConsistent(props);
    RevalidateSettles(props, Initial(props));
    Revalidate(props, Initial(props))
  }

  /** What the player can do: release a tile, tap a slot, press reset. */
  datatype Event =
    | DragEnd(index: int, at: Point, layout: Layout)
    | TapSlot(spot: int)
    | PressReset

  /** The events the rendered component can deliver: only unused tiles of
      the two rendered rows carry a drag gesture, and taps come from the
      rendered slots. Drops see one measured rectangle slot per slot. */
  predicate Enabled(props: Props, st: GridState, ev: Event) {
    match ev
    case DragEnd(index, _, layout) =>
      && 0 <= index < |props.letters| && index < RENDERED_TILES
      && index < |st.usedLetters| && !st.usedLetters[index]
      && |layout.answerTiles| == |st.filledSpots|
    case TapSlot(spot) => 0 <= spot < |st.filledSpots|
    case PressReset => true
  }

  /** The handler an event reaches: a released drag reaches
      `handleLetterDrop`, a tap reaches `handleReturnLetter` only on a filled
      slot (a tap on an empty slot does nothing), and the Reset button reaches
      `handleReset`. */
  function Dispatch(props: Props, st: GridState, ev: Event): (r: GridState)
    requires WellSized(props, st)
    requires Enabled(props, st, ev)
    ensures WellSized(props, r)
    ensures ev.DragEnd? ==> r == HandleLetterDrop(props, st, ev.layout, ev.index, ev.at)
    ensures ev.TapSlot? && st.filledSpots[ev.spot] ==> r == HandleReturnLetter(props, st, ev.spot)
    ensures ev.TapSlot? && !st.filledSpots[ev.spot] ==> r == st
    ensures ev.PressReset? ==> r == Initial(props)
  {
    match ev
    case DragEnd(index, p, layout) => HandleLetterDrop(props, st, layout, index, p)
    case TapSlot(spot) => if st.filledSpots[spot] then HandleReturnLetter(props, st, spot) else st
    case PressReset => Initial(props)
  }

  /** Every handler keeps the invariant. */
  lemma DispatchPreservesConsistency(props: Props, st: GridState, ev: Event)
    requires Consistent(props, st)
    requires Enabled(props, st, ev)
    ensures Consistent(props, Dispatch(props, st, ev))
  {
    match ev
    case DragEnd(index, p, layout) =>
      DropPreservesConsistency(props, st, layout, index, p);
    case TapSlot(spot) =>
      if st.filledSpots[spot] {
        ReturnPreservesConsistency(props, st, spot);
      }
    case PressReset =>
      InitialConsistent(props);
  }

  /** One event: the handler, then the validation effect. */
  function Step(props: Props, st: GridState, ev: Event): (r: GridState)
    requires WellSized(props, st)
    requires Enabled(props, st, ev)
    ensures WellSized(props, r)
  {
    Revalidate(props, Dispatch(props, st, ev))
  }

  /** Every event keeps the invariant, and leaves `isValid` settled. */
  lemma StepPreservesConsistency(props: Props, st: GridState, ev: Event)
    requires Consistent(props, st)
    requires Enabled(props, st, ev)
    ensures Consistent(props, Step(props, st, ev))
    ensures Settled(props, Step(props, st, ev))
  {
    DispatchPreservesConsistency(props, st, ev);
    RevalidateSettles(props, Dispatch(props, st, ev));
  }

  /** A session: the events in order; one the rendered component could not
      deliver in the current state is dropped. */
  function Run(props: Props, st: GridState, events: seq<Event>): (r: GridState)
    requires WellSized(props, st)
    ensures WellSized(props, r)
    decreases |events|
  {
    if |events| == 0 then st
    else
      var next := if Enabled(props, st, events[0]) then Step(props, st, events[0]) else st;
      Run(props, next, events[1..])
  }

  /** From the mounted component, every sequence of events keeps slots and
      tiles in one-to-one agreement and `isValid` equal to the verdict of
      `validateAnswer`. */
  lemma {:induction false} RunPreservesConsistency(props: Props, st: GridState, events: seq<Event>)
    requires Consistent(props, st) && Settled(props, st)
    ensures Consistent(props, Run(props, st, events)) && Settled(props, Run(props, st, events))
    decreases |events|
  {
    if |events| > 0 {
      var next := if Enabled(props, st, events[0]) then Step(props, st, events[0]) else st;
      if Enabled(props, st, events[0]) {
        StepPreservesConsistency(props, st, events[0]);
      }
      RunPreservesConsistency(props, next, events[1..]);
    }
  }
}
