/**
 * The testimonial slider: a cyclic index over the slides, moved by the dot
 * buttons, the previous / next controls and a 6-second auto-advance timer.
 * Each slide and each dot carries an `active` mark that `GoTo` moves.
 */
module Carousel {
  import opened Common

  const AutoAdvanceInterval: nat := 6000

  /** Index reached by the next control and by the auto-advance timer. */
  function Next(i: nat, n: nat): (j: nat)
    requires i < n
    ensures j < n
    ensures if i + 1 < n then j == i + 1 else j == 0
  {
    (i + 1) % n
  }

  /** Index reached by the previous control. */
  function Prev(i: nat, n: nat): (j: nat)
    requires i < n
    ensures j < n
    ensures if i > 0 then j == i - 1 else j == n - 1
  {
    (i - 1 + n) % n
  }

  /** The two controls undo each other. */
  lemma PrevNextInverse(i: nat, n: nat)
    requires i < n
    ensures Prev(Next(i, n), n) == i && Next(Prev(i, n), n) == i
  {
  }

  /** `k` presses of the next control (or `k` auto-advances). */
  function Advance(i: nat, n: nat, k: nat): (j: nat)
    requires i < n
    ensures j < n
    decreases k
  {
    if k == 0 then i else Advance(Next(i, n), n, k - 1)
  }

  /** `k` advances move the index by `k` modulo the slide count; after `n` of them it is back where it started. */
  lemma {:induction false} AdvanceIsModular(i: nat, n: nat, k: nat)
    requires i < n
    ensures Advance(i, n, k) == (i + k) % n
    decreases k
  {
    if k > 0 {
      AdvanceIsModular(Next(i, n), n, k - 1);
      ModAddMod(i + 1, k - 1, n);
    }
  }

  /** How many times the 6-second interval has fired `elapsed` ms after the slider started. */
  function TimerFirings(elapsed: nat): (k: nat)
    ensures k * AutoAdvanceInterval <= elapsed < (k + 1) * AutoAdvanceInterval
  {
    elapsed / AutoAdvanceInterval
  }

  /** Left alone, the slider shows slide `(elapsed / 6000) mod n`: one slide per interval, cyclically. */
  lemma UntouchedSlide(n: nat, elapsed: nat)
    requires n > 0
    ensures Advance(0, n, TimerFirings(elapsed)) == (elapsed / AutoAdvanceInterval) % n
  {
    AdvanceIsModular(0, n, TimerFirings(elapsed));
  }

  lemma FullRoundTrip(i: nat, n: nat)
    requires i < n
    ensures Advance(i, n, n) == i
  {
    AdvanceIsModular(i, n, n);
    ModUnique(i + n, n, 1, i);
  }

  /** Exactly index `at` is marked. */
  predicate OnlyAt(marks: seq<bool>, at: nat) {
    forall j :: 0 <= j < |marks| ==> marks[j] == (j == at)
  }

  /** The marks after `goToTestimonial(to)` from `from`: the mark at `from` removed, then the mark at `to` added. */
  function Moved(marks: seq<bool>, from: nat, to: nat): (r: seq<bool>)
    requires from < |marks| && to < |marks|
    ensures |r| == |marks|
  {
    seq(|marks|, j requires 0 <= j < |marks| => j == to || (marks[j] && j != from))
  }

  /** Whatever the marks were, `to` is marked afterwards and `from` is not (unless it is `to`); no other mark changes. */
  lemma MovedMarks(marks: seq<bool>, from: nat, to: nat)
    requires from < |marks| && to < |marks|
    ensures Moved(marks, from, to)[to]
    ensures from != to ==> !Moved(marks, from, to)[from]
    ensures forall j :: 0 <= j < |marks| && j != from && j != to ==> Moved(marks, from, to)[j] == marks[j]
  {
  }

  /** Moving keeps "exactly one mark, at the current index". */
  lemma MovedKeepsSingleMark(marks: seq<bool>, from: nat, to: nat)
    requires from < |marks| && to < |marks|
    requires OnlyAt(marks, from)
    ensures OnlyAt(Moved(marks, from, to), to)
  {
  }

  class Slider {
    const count: nat
    /** The `active` class of each testimonial card. */
    const slides: array<bool>
    /** The `active` class of each dot button. */
    const dots: array<bool>
    var current: nat

    /** The dots are created by the slider itself, so exactly the current one is active. */
    ghost predicate Valid()
      reads this, dots
    {
      slides.Length == count && dots.Length == count && slides != dots
      && current < count && OnlyAt(dots[..], current)
    }

    /** The slides' marks come from the page markup; when it marks exactly the current slide, they stay in step with the dots. */
    ghost predicate SlidesInStep()
      reads this, slides
    {
      current < slides.Length && OnlyAt(slides[..], current)
    }

    /** `initTestimonialSlider` over non-empty markup: one dot per slide, dot 0 active, current slide 0. */
    constructor (markup: seq<bool>)
      requires |markup| > 0
      ensures Valid() && fresh(slides) && fresh(dots)
      ensures count == |markup| && slides[..] == markup && current == 0
    {
      count := |markup|;
      slides := new bool[|markup|](j requires 0 <= j < |markup| => markup[j]);
      dots := new bool[|markup|](j => j == 0);
      current := 0;
    }

    /** `goToTestimonial(index)`. */
    method GoTo(index: nat)
      requires Valid() && index < count
      modifies this, slides, dots
      ensures Valid() && current == index
      ensures slides[..] == Moved(old(slides[..]), old(current), index)
      ensures dots[..] == Moved(old(dots[..]), old(current), index)
      ensures old(SlidesInStep()) ==> SlidesInStep()
    {
      slides[current] := false;
      dots[current] := false;
      current := index;
      slides[current] := true;
      dots[current] := true;
      assert slides[..] == Moved(old(slides[..]), old(current), index);
      assert dots[..] == Moved(old(dots[..]), old(current), index);
      MovedKeepsSingleMark(old(dots[..]), old(current), index);
      if old(SlidesInStep()) {
        MovedKeepsSingleMark(old(slides[..]), old(current), index);
      }
    }

    /** The previous control. */
    method ShowPrev()
      requires Valid()
      modifies this, slides, dots
      ensures Valid() && current == Prev(old(current), count)
      ensures slides[..] == Moved(old(slides[..]), old(current), current)
      ensures dots[..] == Moved(old(dots[..]), old(current), current)
      ensures old(SlidesInStep()) ==> SlidesInStep()
    {
      GoTo(Prev(current, count));
    }

    /** The next control, and the auto-advance timer, which runs the same update. */
    method ShowNext()
      requires Valid()
      modifies this, slides, dots
      ensures Valid() && current == Next(old(current), count)
      ensures slides[..] == Moved(old(slides[..]), old(current), current)
      ensures dots[..] == Moved(old(dots[..]), old(current), current)
      ensures old(SlidesInStep()) ==> SlidesInStep()
    {
      GoTo(Next(current, count));
    }
  }

  /** `initTestimonialSlider`: nothing happens without a dots container or without slides. */
  method InitTestimonialSlider(hasDots: bool, markup: seq<bool>) returns (s: Slider?)
    ensures s == null <==> !hasDots || |markup| == 0
    ensures s != null ==>
      fresh(s) && s.Valid() && s.slides[..] == markup && s.current == 0
  {
    if !hasDots || |markup| == 0 {
      return null;
    }
    s := new Slider(markup);
  }
}
