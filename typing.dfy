/**
 * The typing effect: a phrase is typed one character per tick, held for a
 * pause, deleted one character per tick, and then the next phrase (cyclically)
 * is typed. There is always exactly one pending timer; `Step` is what happens
 * when it fires.
 */
module Typing {
  import opened Common

  const InitialDelay: nat := 1000
  const TypeDelay: nat := 80
  const DeleteDelay: nat := 30
  const PauseDelay: nat := 2000

  /** The pending timer's callback: `typeEffect` itself, or the pause callback that sets `isDeleting` first. */
  datatype Callback = TypeNext | StartDeleting

  /** The closure variables of `initTypingEffect`, plus the callback of the pending timer. */
  datatype TypingState = TypingState(phraseIndex: int, charIndex: int, isDeleting: bool, pending: Callback)

  /** What one firing produces: the new state, the text shown, and the delay of the timer it schedules. */
  datatype StepResult = StepResult(after: TypingState, shown: string, delay: nat)

  /** The state right after initialisation; its timer fires after `InitialDelay`. */
  function Start(): TypingState {
    TypingState(0, 0, false, TypeNext)
  }

  /** The pending timer fires. */
  function Step(phrases: seq<string>, t: TypingState): (r: StepResult)
    requires 0 <= t.phraseIndex < |phrases|
    ensures 0 <= r.after.phraseIndex < |phrases|
    // the delay of the next timer: pause before deleting, fast while deleting, slower while typing
    ensures r.delay == if r.after.pending == StartDeleting then PauseDelay
                       else if r.after.isDeleting then DeleteDelay else TypeDelay
    // deleting starts only through the pause callback, which is scheduled only in typing mode
    ensures !t.isDeleting && t.pending == TypeNext ==> !r.after.isDeleting
    ensures r.after.pending == StartDeleting ==>
      !r.after.isDeleting && r.after.charIndex == |phrases[t.phraseIndex]|
    // deleting stops only at character index 0, and exactly then the phrase advances
    ensures (t.isDeleting || t.pending == StartDeleting) && !r.after.isDeleting ==>
      r.after.charIndex == 0 && r.after.phraseIndex == (t.phraseIndex + 1) % |phrases|
    ensures r.after.phraseIndex != t.phraseIndex ==> r.after.charIndex == 0 && !r.after.isDeleting
  {
    var deleting := if t.pending == StartDeleting then true else t.isDeleting;
    var current := phrases[t.phraseIndex];
    var shown := if deleting then Prefix(current, t.charIndex - 1) else Prefix(current, t.charIndex + 1);
    var c := if deleting then t.charIndex - 1 else t.charIndex + 1;
    if !deleting && c == |current| then
      StepResult(TypingState(t.phraseIndex, c, false, StartDeleting), shown, PauseDelay)
    else if deleting && c == 0 then
      StepResult(TypingState((t.phraseIndex + 1) % |phrases|, 0, false, TypeNext), shown, TypeDelay)
    else
      StepResult(TypingState(t.phraseIndex, c, deleting, TypeNext), shown, if deleting then DeleteDelay else TypeDelay)
  }

  /** No phrase is empty (the source does not check this; with an empty phrase typing never stops). */
  predicate AllNonEmpty(phrases: seq<string>) {
    forall i :: 0 <= i < |phrases| ==> |phrases[i]| > 0
  }

  /**
   * The state invariant between firings: the phrase index is in range, and the
   * character index is within the current phrase; the pause is pending exactly
   * when the phrase is fully typed.
   */
  predicate Inv(phrases: seq<string>, t: TypingState) {
    0 <= t.phraseIndex < |phrases| &&
    var len := |phrases[t.phraseIndex]|;
    match t.pending
    case StartDeleting => !t.isDeleting && t.charIndex == len
    case TypeNext => if t.isDeleting then 1 <= t.charIndex < len else 0 <= t.charIndex < len
  }

  lemma StartInv(phrases: seq<string>)
    requires |phrases| > 0 && AllNonEmpty(phrases)
    ensures Inv(phrases, Start())
  {
  }

  /**
   * One firing keeps the invariant, keeps the character index within the
   * current phrase, and shows exactly the prefix of the current phrase up to
   * the character index.
   */
  lemma StepInv(phrases: seq<string>, t: TypingState)
    requires AllNonEmpty(phrases) && Inv(phrases, t)
    ensures var r := Step(phrases, t);
      Inv(phrases, r.after)
      && 0 <= r.after.charIndex <= |phrases[r.after.phraseIndex]|
      && r.shown == phrases[r.after.phraseIndex][..r.after.charIndex]
  {
  }

  /** The state after `n` firings. */
  function Run(phrases: seq<string>, t: TypingState, n: nat): (u: TypingState)
    requires 0 <= t.phraseIndex < |phrases|
    ensures 0 <= u.phraseIndex < |phrases|
    decreases n
  {
    if n == 0 then t else Run(phrases, Step(phrases, t).after, n - 1)
  }

  /** The invariant, and so the bounds on the character index, hold after any number of firings. */
  lemma {:induction false} RunInv(phrases: seq<string>, t: TypingState, n: nat)
    requires AllNonEmpty(phrases) && Inv(phrases, t)
    ensures var u := Run(phrases, t, n);
      Inv(phrases, u) && 0 <= u.charIndex <= |phrases[u.phraseIndex]|
    decreases n
  {
    if n > 0 {
      StepInv(phrases, t);
      RunInv(phrases, Step(phrases, t).after, n - 1);
    }
  }

  lemma {:induction false} RunAdd(phrases: seq<string>, t: TypingState, a: nat, b: nat)
    requires 0 <= t.phraseIndex < |phrases|
    ensures Run(phrases, t, a + b) == Run(phrases, Run(phrases, t, a), b)
    decreases a
  {
    if a > 0 {
      RunAdd(phrases, Step(phrases, t).after, a - 1, b);
    }
  }

  /** Typing from character `c` reaches the end of the phrase, with the pause pending, after `len - c` firings. */
  lemma {:induction false} TypingPhase(phrases: seq<string>, p: int, c: int)
    requires 0 <= p < |phrases| && 0 <= c < |phrases[p]|
    ensures Run(phrases, TypingState(p, c, false, TypeNext), |phrases[p]| - c)
         == TypingState(p, |phrases[p]|, false, StartDeleting)
    decreases |phrases[p]| - c
  {
    var r := Step(phrases, TypingState(p, c, false, TypeNext));
    if c + 1 < |phrases[p]| {
      assert r.after == TypingState(p, c + 1, false, TypeNext);
      TypingPhase(phrases, p, c + 1);
    } else {
      assert r.after == TypingState(p, |phrases[p]|, false, StartDeleting);
    }
  }

  /** Deleting from character `c` (either the pause callback or mid-deletion) reaches the start of the next phrase after `c` firings. */
  lemma {:induction false} DeletingPhase(phrases: seq<string>, t: TypingState)
    requires 0 <= t.phraseIndex < |phrases|
    requires t.pending == StartDeleting || (t.isDeleting && t.pending == TypeNext)
    requires 1 <= t.charIndex
    ensures Run(phrases, t, t.charIndex) == TypingState((t.phraseIndex + 1) % |phrases|, 0, false, TypeNext)
    decreases t.charIndex
  {
    var r := Step(phrases, t);
    if t.charIndex > 1 {
      assert r.after == TypingState(t.phraseIndex, t.charIndex - 1, true, TypeNext);
      DeletingPhase(phrases, r.after);
    }
  }

  /**
   * A whole phrase: from the start of phrase `p`, after `2 * |phrases[p]|`
   * firings (type every character, then delete every character) the machine
   * is at the start of phrase `(p + 1) % |phrases|`.
   */
  lemma PhraseCycle(phrases: seq<string>, p: int)
    requires 0 <= p < |phrases| && |phrases[p]| > 0
    ensures Run(phrases, TypingState(p, 0, false, TypeNext), 2 * |phrases[p]|)
         == TypingState((p + 1) % |phrases|, 0, false, TypeNext)
  {
    var len := |phrases[p]|;
    var t := TypingState(p, 0, false, TypeNext);
    RunAdd(phrases, t, len, len);
    TypingPhase(phrases, p, 0);
    DeletingPhase(phrases, TypingState(p, len, false, StartDeleting));
  }

  /** Number of firings needed to type and delete the `m` phrases starting at `p`. */
  function CycleTicks(phrases: seq<string>, p: int, m: nat): nat
    requires 0 <= p < |phrases|
    decreases m
  {
    if m == 0 then 0 else 2 * |phrases[p]| + CycleTicks(phrases, (p + 1) % |phrases|, m - 1)
  }

  /** The phrase index after `m` phrase changes from `p`. */
  function Advanced(p: int, m: nat, k: int): int
    requires 0 <= p < k
    decreases m
  {
    if m == 0 then p else Advanced((p + 1) % k, m - 1, k)
  }

  lemma {:induction false} AdvancedIsModular(p: int, m: nat, k: int)
    requires 0 <= p < k
    ensures Advanced(p, m, k) == (p + m) % k
    decreases m
  {
    if m > 0 {
      AdvancedIsModular((p + 1) % k, m - 1, k);
      ModAddMod(p + 1, m - 1, k);
    }
  }

  lemma {:induction false} CyclesReach(phrases: seq<string>, p: int, m: nat)
    requires AllNonEmpty(phrases) && 0 <= p < |phrases|
    ensures Run(phrases, TypingState(p, 0, false, TypeNext), CycleTicks(phrases, p, m))
         == TypingState(Advanced(p, m, |phrases|), 0, false, TypeNext)
    decreases m
  {
    if m > 0 {
      var q := (p + 1) % |phrases|;
      ThenOnePhrase(phrases, p, CycleTicks(phrases, q, m - 1));
      CyclesReach(phrases, q, m - 1);
    }
  }

  /**
   * The phrases are visited in order, cyclically: from the start of phrase
   * `p`, after the firings of `m` whole phrases the machine is at the start of
   * phrase `(p + m) % |phrases|`.
   */
  lemma PhrasesInOrder(phrases: seq<string>, p: int, m: nat)
    requires AllNonEmpty(phrases) && 0 <= p < |phrases|
    ensures Run(phrases, TypingState(p, 0, false, TypeNext), CycleTicks(phrases, p, m))
         == TypingState((p + m) % |phrases|, 0, false, TypeNext)
  {
    CyclesReach(phrases, p, m);
    AdvancedIsModular(p, m, |phrases|);
  }

  /** Any run that starts with a whole phrase continues from the start of the next one. */
  lemma ThenOnePhrase(phrases: seq<string>, p: int, b: nat)
    requires 0 <= p < |phrases| && |phrases[p]| > 0
    ensures Run(phrases, TypingState(p, 0, false, TypeNext), 2 * |phrases[p]| + b)
         == Run(phrases, TypingState((p + 1) % |phrases|, 0, false, TypeNext), b)
  {
    RunAdd(phrases, TypingState(p, 0, false, TypeNext), 2 * |phrases[p]|, b);
    PhraseCycle(phrases, p);
  }

  /**
   * The element and its typing state. `Fire` runs the pending timer's
   * callback and schedules the next one.
   */
  class Typer {
    const phrases: seq<string>
    var phraseIndex: int
    var charIndex: int
    var isDeleting: bool
    /** Callback and delay of the one pending timer. */
    var pending: Callback
    var delay: nat
    /** The element's `textContent`. */
    var shown: string

    function State(): TypingState
      reads this
    {
      TypingState(phraseIndex, charIndex, isDeleting, pending)
    }

    ghost predicate Valid()
      reads this
    {
      0 <= phraseIndex < |phrases|
    }

    /** `initTypingEffect` with an element showing `text` and a non-empty phrase list. */
    constructor (phrases: seq<string>, text: string)
      requires |phrases| > 0
      ensures Valid() && this.phrases == phrases
      ensures State() == Start() && delay == InitialDelay && shown == text
    {
      this.phrases := phrases;
      phraseIndex, charIndex, isDeleting := 0, 0, false;
      pending, delay := TypeNext, InitialDelay;
      shown := text;
    }

    method Fire()
      requires Valid()
      modifies this
      ensures Valid()
      ensures var r := Step(phrases, old(State()));
        State() == r.after && shown == r.shown && delay == r.delay
    {
      if pending == StartDeleting {
        isDeleting := true;
      }
      var current := phrases[phraseIndex];
      if isDeleting {
        shown := Prefix(current, charIndex - 1);
        charIndex := charIndex - 1;
      } else {
        shown := Prefix(current, charIndex + 1);
        charIndex := charIndex + 1;
      }
      if !isDeleting && charIndex == |current| {
        pending, delay := StartDeleting, PauseDelay;
        return;
      }
      if isDeleting && charIndex == 0 {
        isDeleting := false;
        phraseIndex := (phraseIndex + 1) % |phrases|;
      }
      pending, delay := TypeNext, if isDeleting then DeleteDelay else TypeDelay;
    }
  }

  /** `initTypingEffect`: nothing happens when the element is missing or the phrase list is empty. */
  method InitTypingEffect(hasElement: bool, phrases: seq<string>, text: string) returns (t: Typer?)
    ensures t == null <==> !hasElement || |phrases| == 0
    ensures t != null ==>
      fresh(t) && t.Valid() && t.phrases == phrases
      && t.State() == Start() && t.delay == InitialDelay && t.shown == text
  {
    if !hasElement || |phrases| == 0 {
      return null;
    }
    t := new Typer(phrases, text);
  }
}
