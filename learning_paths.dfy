/**
  The learning-path card stack of the interactive features section
  (components/InteractiveFeatures.tsx). The cards are component state; every
  tick the updater copies the array, pops the last card and unshifts it to
  the front, and the copy becomes the new state. Card `i` is drawn with
  z-index `length - i`. The timer that drives the ticks is not modelled: one
  tick is one call of `Tick`.
*/
module LearningPaths {

  datatype CourseLevel = CourseLevel(id: int, name: string, level: string, content: string, gradient: string)

  /** The state the section starts with; `t` is the translation lookup. */
  function InitialCards(t: string -> string): (cards: seq<CourseLevel>)
    ensures |cards| == 3 && DistinctIds(cards)
  {
    [ CourseLevel(1, t("paths.levels.0.name"), t("paths.levels.0.level"), t("paths.levels.0.content"),
                  "from-amber-600 to-amber-700"),
      CourseLevel(2, t("paths.levels.1.name"), t("paths.levels.1.level"), t("paths.levels.1.content"),
                  "from-stone-500 to-stone-600"),
      CourseLevel(3, t("paths.levels.2.name"), t("paths.levels.2.level"), t("paths.levels.2.content"),
                  "from-emerald-600 to-emerald-700") ]
  }

  predicate DistinctIds(cards: seq<CourseLevel>) {
    forall i, j :: 0 <= i < j < |cards| ==> cards[i].id != cards[j].id
  }

  /** One rotation: the last card moves to the front, the others move back by one. */
  function RotateRight(s: seq<CourseLevel>): (r: seq<CourseLevel>)
    requires |s| > 0
    ensures |r| == |s|
  {
    [s[|s| - 1]] + s[..|s| - 1]
  }

  /** Where each card goes, and that no card is lost or added. */
  lemma RotateRightAt(s: seq<CourseLevel>)
    requires |s| > 0
    ensures RotateRight(s)[0] == s[|s| - 1]
    ensures forall i :: 0 <= i < |s| - 1 ==> RotateRight(s)[i + 1] == s[i]
    ensures multiset(RotateRight(s)) == multiset(s)
  {
    assert s == s[..|s| - 1] + [s[|s| - 1]];
  }

  /** A rotation keeps the card ids distinct. */
  lemma RotateKeepsIdsDistinct(s: seq<CourseLevel>)
    requires |s| > 0 && DistinctIds(s)
    ensures DistinctIds(RotateRight(s))
  {
    var r := RotateRight(s);
    RotateRightAt(s);
    forall i, j | 0 <= i < j < |r| ensures r[i].id != r[j].id {
      assert r[j] == s[j - 1];
      if i > 0 { assert r[i] == s[i - 1]; }
    }
  }

  function RotateTimes(s: seq<CourseLevel>, k: nat): (r: seq<CourseLevel>)
    requires |s| > 0
    ensures |r| == |s|
  {
    if k == 0 then s else RotateRight(RotateTimes(s, k - 1))
  }

  /** After k ticks (k at most the length) the last k cards stand in front, in order. */
  lemma {:induction false} RotateTimesShape(s: seq<CourseLevel>, k: nat)
    requires 0 < |s| && k <= |s|
    ensures RotateTimes(s, k) == s[|s| - k..] + s[..|s| - k]
  {
    if k == 0 {
      assert s[|s|..] + s[..|s|] == s;
    } else {
      RotateTimesShape(s, k - 1);
      RotateSplit(s, |s| - k);
    }
  }

  /** Rotating the split at m + 1 gives the split at m. */
  lemma RotateSplit(s: seq<CourseLevel>, m: nat)
    requires m < |s|
    ensures RotateRight(s[m + 1..] + s[..m + 1]) == s[m..] + s[..m]
  {
    var front, back := s[m + 1..], s[..m + 1];
    var prev := front + back;
    assert prev[|s| - 1] == back[m] == s[m];
    assert prev[..|s| - 1] == front + back[..m];
    assert back[..m] == s[..m];
    assert [s[m]] + front == s[m..];
  }

  /** As many ticks as there are cards restore the original order. */
  lemma FullTurn(s: seq<CourseLevel>)
    requires |s| > 0
    ensures RotateTimes(s, |s|) == s
  {
    RotateTimesShape(s, |s|);
    assert s[0..] == s;
  }

  /** `zIndex: cards.length - index`: distinct for every position, highest for the front card. */
  function ZIndex(length: nat, index: nat): int {
    length - index
  }

  lemma ZIndexOrder(length: nat, i: nat, j: nat)
    requires i < j < length
    ensures ZIndex(length, i) > ZIndex(length, j) > 0
    ensures ZIndex(length, 0) == length
  {
  }

  /** `const newArray = [...prev]; newArray.unshift(newArray.pop()!)`: rotate a fresh copy, leave `prev` alone. */
  method RotatedCopy(prev: array<CourseLevel>) returns (next: array<CourseLevel>)
    requires prev.Length > 0
    ensures fresh(next)
    ensures next[..] == RotateRight(prev[..])
  {
    var n := prev.Length;
    next := new CourseLevel[n];
    var i := 0;
    while i < n
      invariant 0 <= i <= n
      invariant forall k :: 0 <= k < i ==> next[k] == prev[k]
    {
      next[i] := prev[i];
      i := i + 1;
    }
    var last := next[n - 1];
    i := n - 1;
    while i > 0
      invariant 0 <= i <= n - 1
      invariant forall k :: 0 <= k <= i ==> next[k] == prev[k]
      invariant forall k :: i < k < n ==> next[k] == prev[k - 1]
    {
      next[i] := next[i - 1];
      i := i - 1;
    }
    next[0] := last;
  }

  class LearningPathsSection {
    var cards: array<CourseLevel>
    ghost var initial: seq<CourseLevel>
    ghost var ticks: nat

    /** The stack is the initial one turned `ticks` times, never empty, with distinct ids. */
    ghost predicate Valid()
      reads this, cards
    {
      |initial| == 3 && DistinctIds(initial) &&
      cards[..] == RotateTimes(initial, ticks % 3) &&
      DistinctIds(cards[..])
    }

    constructor (t: string -> string)
      ensures Valid() && fresh(cards)
      ensures cards[..] == InitialCards(t) && ticks == 0
    {
      var init := InitialCards(t);
      var a := new CourseLevel[3](i requires 0 <= i < 3 => init[i]);
      assert a[..] == init;
      cards := a;
      initial := init;
      ticks := 0;
    }

    /** One tick of the timer: the state becomes a rotated copy; the old array is not touched. */
    method Tick()
      requires Valid()
      modifies this
      ensures Valid() && fresh(cards)
      ensures cards[..] == RotateRight(old(cards[..]))
      ensures ticks == old(ticks) + 1 && initial == old(initial)
      ensures unchanged(old(cards))
    {
      ghost var before := cards[..];
      ghost var k := ticks % 3;
      var next := RotatedCopy(cards);
      RotateKeepsIdsDistinct(before);
      assert next[..] == RotateTimes(initial, k + 1);
      if k + 1 == 3 {
        FullTurn(initial);
        assert (ticks + 1) % 3 == 0;
      } else {
        assert (ticks + 1) % 3 == k + 1;
      }
      cards := next;
      ticks := ticks + 1;
    }
  }
}
