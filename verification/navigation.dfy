/** Slide navigation of the viewer: the keyboard handler's clamped updaters,
    the Prev/Next buttons with their `disabled` guards, and which slides are
    shown. The current slide is an index into a deck of n slides. */
module Navigation {

  /** The two fields of a browser keydown event that the handler inspects. */
  datatype KeyEvent = KeyEvent(key: string, code: string)

  /** What a key press asks for. */
  datatype Intent = Advance | Retreat | NoIntent

  /** ArrowRight (by key) or Space (by code) advances; otherwise ArrowLeft
      (by key) retreats; every other key is ignored. */
  function Classify(e: KeyEvent): (i: Intent)
    ensures i == Advance <==> e.key == "ArrowRight" || e.code == "Space"
    ensures i == Retreat <==> e.key == "ArrowLeft" && e.code != "Space"
  {
    if e.key == "ArrowRight" || e.code == "Space" then Advance
    else if e.key == "ArrowLeft" then Retreat
    else NoIntent
  }

  function MinInt(a: int, b: int): int { if a <= b then a else b }
  function MaxInt(a: int, b: int): int { if a >= b then a else b }

  /** The keyboard's "next" updater: one step forward unless already on the
      last slide. On an in-range index it is min(prev + 1, n - 1). */
  function Advanced(prev: int, n: int): (r: int)
    ensures prev < n ==> r == MinInt(prev + 1, n - 1)
    ensures 0 <= prev < n ==> 0 <= r < n
  {
    if prev < n - 1 then prev + 1 else prev
  }

  /** The keyboard's "previous" updater: one step back unless already on the
      first slide. On a non-negative index it is max(prev - 1, 0). */
  function Retreated(prev: int): (r: int)
    ensures 0 <= prev ==> r == MaxInt(prev - 1, 0)
    ensures 0 <= prev ==> 0 <= r <= prev
  {
    if prev > 0 then prev - 1 else prev
  }

  /** The keydown handler: no effect while exporting or for an unbound key,
      a clamped step otherwise; the index never leaves [0, n). */
  function OnKeyDown(e: KeyEvent, prev: int, exporting: bool, n: int): (r: int)
    ensures exporting ==> r == prev
    ensures Classify(e) == NoIntent ==> r == prev
    ensures 0 <= prev < n ==> 0 <= r < n
    ensures 0 <= prev < n && !exporting && Classify(e) == Advance ==> r == MinInt(prev + 1, n - 1)
    ensures 0 <= prev < n && !exporting && Classify(e) == Retreat ==> r == MaxInt(prev - 1, 0)
  {
    if exporting then prev
    else match Classify(e)
      case Advance => Advanced(prev, n)
      case Retreat => Retreated(prev)
      case NoIntent => prev
  }

  /** The index after a sequence of key presses, the export flag held fixed. */
  function RunKeys(keys: seq<KeyEvent>, start: int, exporting: bool, n: int): int
    decreases |keys|
  {
    if keys == [] then start
    else RunKeys(keys[1..], OnKeyDown(keys[0], start, exporting, n), exporting, n)
  }

  /** Any sequence of key presses keeps the index inside the deck. */
  lemma {:induction false} KeysStayInDeck(keys: seq<KeyEvent>, start: int, exporting: bool, n: int)
    requires 0 <= start < n
    ensures 0 <= RunKeys(keys, start, exporting, n) < n
    decreases |keys|
  {
    if keys != [] {
      KeysStayInDeck(keys[1..], OnKeyDown(keys[0], start, exporting, n), exporting, n);
    }
  }

  /** While an export runs, no sequence of key presses moves the index. */
  lemma {:induction false} KeysIgnoredWhileExporting(keys: seq<KeyEvent>, start: int, n: int)
    ensures RunKeys(keys, start, true, n) == start
    decreases |keys|
  {
    if keys != [] {
      KeysIgnoredWhileExporting(keys[1..], start, n);
    }
  }

  /** On a three-slide deck, three presses of ArrowRight from slide 0 stop at
      the last slide, and four presses of ArrowLeft from there stop at 0. */
  lemma ThreeSlideWalk()
    ensures var right := KeyEvent("ArrowRight", "ArrowRight");
      && RunKeys([right], 0, false, 3) == 1
      && RunKeys([right, right], 0, false, 3) == 2
      && RunKeys([right, right, right], 0, false, 3) == 2
    ensures var left := KeyEvent("ArrowLeft", "ArrowLeft");
      && RunKeys([left], 2, false, 3) == 1
      && RunKeys([left, left], 2, false, 3) == 0
      && RunKeys([left, left, left, left], 2, false, 3) == 0
  {
    var right := KeyEvent("ArrowRight", "ArrowRight");
    assert RunKeys([right], 2, false, 3) == 2;
    assert [right, right][1..] == [right];
    assert RunKeys([right, right], 1, false, 3) == 2;
    assert [right, right, right][1..] == [right, right];
    var left := KeyEvent("ArrowLeft", "ArrowLeft");
    assert RunKeys([left], 1, false, 3) == 0;
    assert [left, left][1..] == [left];
    assert RunKeys([left], 0, false, 3) == 0;
    assert RunKeys([left, left], 0, false, 3) == 0;
    assert [left, left, left][1..] == [left, left];
    assert RunKeys([left, left, left], 0, false, 3) == 0;
    assert RunKeys([left, left, left], 1, false, 3) == 0;
    assert [left, left, left, left][1..] == [left, left, left];
  }

  /** The two toolbar buttons. */
  datatype Button = PrevButton | NextButton

  /** The update a button's click handler applies: `c - 1` or `c + 1`,
      without clamping. */
  function Unclamped(b: Button, current: int): int
  {
    match b
    case PrevButton => current - 1
    case NextButton => current + 1
  }

  /** The `disabled` attribute of each button: Prev on the first slide, Next
      on the last. On an in-range index that is exactly when the button's
      unclamped update would leave the deck. */
  predicate Disabled(b: Button, current: int, n: int): (d: bool)
    ensures 0 <= current < n ==> (d <==> !(0 <= Unclamped(b, current) < n))
  {
    match b
    case PrevButton => current == 0
    case NextButton => current == n - 1
  }

  /** A click: the button's own updater runs only when the button is
      enabled; a disabled button swallows the click. The export flag plays
      no part. Together the guards give exactly the keyboard's clamped
      steps. */
  function Click(b: Button, current: int, n: int): (r: int)
    ensures 0 <= current < n ==> 0 <= r < n
    ensures 0 <= current < n && b == PrevButton ==> r == Retreated(current)
    ensures 0 <= current < n && b == NextButton ==> r == Advanced(current, n)
    ensures Disabled(b, current, n) ==> r == current
  {
    if Disabled(b, current, n) then current else Unclamped(b, current)
  }

  /** Slide i is rendered visible (opacity 1, visibility visible, scale 1)
      when it is the active slide or an export is running. */
  predicate IsVisible(i: int, current: int, exporting: bool): (v: bool)
    ensures exporting ==> v
    ensures !exporting ==> (v <==> i == current)
  {
    i == current || exporting
  }

  /** The indices of a deck of n slides. */
  function Indices(n: int): (s: set<int>)
    ensures forall i :: i in s <==> 0 <= i < n
    decreases n
  {
    if n <= 0 then {} else Indices(n - 1) + {n - 1}
  }

  /** The indices of the slides that are visible. */
  function VisibleSlides(current: int, exporting: bool, n: int): set<int>
  {
    set i | 0 <= i < n && IsVisible(i, current, exporting)
  }

  lemma {:induction false} IndicesCount(n: nat)
    ensures |Indices(n)| == n
  {
    if n > 0 {
      var smaller := Indices(n - 1);
      IndicesCount(n - 1);
      assert n - 1 !in smaller;
      assert Indices(n) == smaller + {n - 1};
      assert |smaller + {n - 1}| == |smaller| + 1;
    }
  }

  /** Outside an export exactly one slide, the active one, is visible. */
  lemma OnlyActiveVisible(current: int, n: int)
    requires 0 <= current < n
    ensures VisibleSlides(current, false, n) == {current}
    ensures |VisibleSlides(current, false, n)| == 1
  {
    assert current in VisibleSlides(current, false, n);
  }

  /** During an export all n slides are visible, so each can be captured. */
  lemma AllVisibleWhileExporting(current: int, n: nat)
    ensures VisibleSlides(current, true, n) == Indices(n)
    ensures |VisibleSlides(current, true, n)| == n
  {
    assert VisibleSlides(current, true, n) == Indices(n);
    IndicesCount(n);
  }
}
