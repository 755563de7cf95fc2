/** js/presentation.js: the company-values slide show that interrupts the
    game. One object holds whether it is showing, which slide is up, the
    callback to run when it ends, and one "active" mark per indicator dot. */
module Presentation {
  import opened Grid

  /** One slide: a value's title and description. */
  datatype Slide = Slide(title: string, desc: string)

  const Values: seq<Slide> := [
    Slide("DEDICATION", "Displaying absolute commitment to building and retaining a strong brand image."),
    Slide("INTEGRITY", "Preserving strong moral principles and being honest in all business conduct."),
    Slide("PROFESSIONALISM", "Using everybody's acumen to conclude anything we launch with excellence.")
  ]

  /** `duration` and `slideDuration`, in milliseconds. */
  const Duration: int := 2 * 60 * 1000
  const SlideDuration: int := 10000

  /** The callback `start` is given; which function it is does not matter
      here, only whether there is one. */
  type Callback = nat

  /** `(currentIndex + 1) % values.length`. */
  function NextIndex(i: nat): (r: nat)
    ensures r < |Values|
    ensures i < |Values| - 1 ==> r == i + 1
    ensures i == |Values| - 1 ==> r == 0
  {
    (i + 1) % |Values|
  }

  /** Going round all the slides comes back to the one the show started
      on, and no earlier. */
  lemma NextIndexCycles(i: nat)
    requires i < |Values|
    ensures NextIndex(NextIndex(NextIndex(i))) == i
    ensures NextIndex(i) != i && NextIndex(NextIndex(i)) != i
  {
  }

  /** After `k` slide changes from the first slide, slide `k mod 3` is up:
      the show goes round the values in order. */
  lemma {:induction false} SlidesShown(k: nat)
    ensures Iterate(0, k) == k % |Values|
  {
    if k > 0 {
      SlidesShown(k - 1);
    }
  }

  /** `k` calls of `nextSlide` from slide `i`. */
  function Iterate(i: nat, k: nat): nat {
    if k == 0 then i else NextIndex(Iterate(i, k - 1))
  }

  class Presentation {
    var isActive: bool
    var currentIndex: nat
    var onComplete: Option<Callback>
    /** The armed `timer` and `slideInterval`, by their delay in
        milliseconds; None once cleared. */
    var stopTimer: Option<int>
    var slideTimer: Option<int>
    /** The text the overlay shows. */
    var title: string
    var desc: string
    /** Whether each indicator dot has the `active` class. */
    var dots: array<bool>

    /** The indicators carry exactly one mark, on the slide that is up. */
    ghost predicate Marked()
      reads this, dots
    {
      forall i :: 0 <= i < dots.Length ==> dots[i] == (i == currentIndex)
    }

    ghost predicate Valid()
      reads this, dots
    {
      && dots.Length == |Values|
      && currentIndex < |Values|
      && (isActive ==> Marked() && title == Values[currentIndex].title && desc == Values[currentIndex].desc)
      && stopTimer == (if isActive then Some(Duration) else None)
      && slideTimer == (if isActive then Some(SlideDuration) else None)
    }

    /** The object literal's initial state, with one dot per value. */
    constructor ()
      ensures !isActive && currentIndex == 0 && onComplete == None
      ensures stopTimer == None && slideTimer == None
      ensures fresh(dots) && dots.Length == |Values|
      ensures Valid()
    {
      isActive := false;
      currentIndex := 0;
      onComplete := None;
      stopTimer := None;
      slideTimer := None;
      title := "";
      desc := "";
      dots := new bool[|Values|](_ => false);
    }

    /** `start`: ignored while showing; otherwise show, remember the
        callback, go to the first slide, and arm the slide interval and the
        stop timer. */
    method Start(callback: Option<Callback>)
      requires Valid()
      modifies this, dots
      ensures dots == old(dots)
      ensures old(isActive) ==> isActive == old(isActive) && currentIndex == old(currentIndex)
                                && onComplete == old(onComplete) && dots[..] == old(dots[..])
                                && title == old(title) && desc == old(desc)
      ensures !old(isActive) ==> isActive && onComplete == callback && currentIndex == 0
      ensures !old(isActive) ==> slideTimer == Some(SlideDuration) && stopTimer == Some(Duration)
      ensures !old(isActive) ==> title == Values[0].title && desc == Values[0].desc
      ensures Valid()
    {
      if isActive {
        return;
      }
      isActive := true;
      onComplete := callback;
      currentIndex := 0;
      ShowSlide(0);
      slideTimer := Some(SlideDuration);
      stopTimer := Some(Duration);
    }

    /** `stop`: ignored while not showing; otherwise disarm both timers,
        hide, and hand back the callback to run one second later, if it is
        one. The callback stays stored. */
    method Stop() returns (scheduled: Option<Callback>)
      requires Valid()
      modifies this
      ensures old(isActive) ==> !isActive && scheduled == onComplete
      ensures stopTimer == None && slideTimer == None
      ensures !old(isActive) ==> !isActive && scheduled == None
      ensures currentIndex == old(currentIndex) && onComplete == old(onComplete)
      ensures title == old(title) && desc == old(desc) && dots == old(dots)
      ensures Valid()
    {
      if !isActive {
        return None;
      }
      stopTimer := None;
      slideTimer := None;
      isActive := false;
      scheduled := onComplete;
    }

    /** `nextSlide`: the next slide, round from the last to the first. */
    method NextSlide()
      requires Valid()
      modifies this`currentIndex, this`title, this`desc, dots
      ensures currentIndex == NextIndex(old(currentIndex))
      ensures title == Values[currentIndex].title && desc == Values[currentIndex].desc
      ensures Valid() && Marked()
    {
      currentIndex := (currentIndex + 1) % |Values|;
      ShowSlide(currentIndex);
    }

    /** `showSlide`: put up the slide's text and move the mark to it. */
    method ShowSlide(index: nat)
      requires index < |Values| && dots.Length == |Values|
      modifies this`title, this`desc, dots
      ensures title == Values[index].title && desc == Values[index].desc
      ensures forall i :: 0 <= i < dots.Length ==> dots[i] == (i == index)
    {
      var item := Values[index];
      title := item.title;
      desc := item.desc;
      UpdateIndicators(index);
    }

    /** `updateIndicators`: the dot at `index` gets the mark, every other
        dot loses it; an index past the dots leaves none marked. */
    method UpdateIndicators(index: int)
      modifies dots
      ensures forall i :: 0 <= i < dots.Length ==> dots[i] == (i == index)
    {
      for i := 0 to dots.Length
        invariant forall j :: 0 <= j < i ==> dots[j] == (j == index)
      {
        if i == index {
          dots[i] := true;
        } else {
          dots[i] := false;
        }
      }
    }
  }
}
