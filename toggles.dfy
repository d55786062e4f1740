/**
 * The FAQ accordion and the interactive journey timeline: clicking an item
 * closes every item and then opens the clicked one unless it was already
 * open. The flags are the `open` / `expanded` classes of the items, in
 * document order.
 */
module Toggles {

  /** The flags after a click on item `x`: only `x` can be set, and only if it was not set before. */
  function AfterClick(flags: seq<bool>, x: nat): (r: seq<bool>)
    requires x < |flags|
    ensures |r| == |flags|
  {
    seq(|flags|, j requires 0 <= j < |flags| => j == x && !flags[x])
  }

  /** Indices of the items that are open. */
  function OpenSet(flags: seq<bool>): set<nat> {
    set j: nat | j < |flags| && flags[j]
  }

  /** After a click on `x` nothing is open if `x` was open, and only `x` otherwise, whatever was open before. */
  lemma ClickOpensAtMostClicked(flags: seq<bool>, x: nat)
    requires x < |flags|
    ensures OpenSet(AfterClick(flags, x)) == if flags[x] then {} else {x}
  {
    var r := AfterClick(flags, x);
    if flags[x] {
      assert forall j :: j in OpenSet(r) ==> false;
    } else {
      assert x in OpenSet(r);
    }
  }

  /** At most one item is ever open after a click. */
  lemma ClickLeavesAtMostOne(flags: seq<bool>, x: nat)
    requires x < |flags|
    ensures |OpenSet(AfterClick(flags, x))| <= 1
  {
    ClickOpensAtMostClicked(flags, x);
  }

  /** Two clicks on the same item give it back its old state and leave every other item closed. */
  lemma ClickTwice(flags: seq<bool>, x: nat)
    requires x < |flags|
    ensures OpenSet(AfterClick(AfterClick(flags, x), x)) == if flags[x] then {x} else {}
  {
    var once := AfterClick(flags, x);
    assert once[x] == !flags[x];
    ClickOpensAtMostClicked(once, x);
  }

  /** The accordion's handler: it removes `open` from the items that have it, then opens the clicked one if it was closed. */
  method AccordionClick(open: array<bool>, x: nat)
    requires x < open.Length
    modifies open
    ensures open[..] == AfterClick(old(open[..]), x)
  {
    var wasOpen := open[x];
    var j := 0;
    while j < open.Length
      invariant 0 <= j <= open.Length
      invariant forall k :: 0 <= k < j ==> !open[k]
      invariant forall k :: j <= k < open.Length ==> open[k] == old(open[k])
    {
      if open[j] {
        open[j] := false;
      }
      j := j + 1;
    }
    if !wasOpen {
      open[x] := true;
    }
  }

  /** The timeline's handler: it removes `expanded` from every item, then expands the clicked one if it was collapsed. */
  method TimelineClick(expanded: array<bool>, x: nat)
    requires x < expanded.Length
    modifies expanded
    ensures expanded[..] == AfterClick(old(expanded[..]), x)
  {
    var wasExpanded := expanded[x];
    for j := 0 to expanded.Length
      invariant forall k :: 0 <= k < j ==> !expanded[k]
      invariant forall k :: j <= k < expanded.Length ==> expanded[k] == old(expanded[k])
    {
      expanded[j] := false;
    }
    if !wasExpanded {
      expanded[x] := true;
    }
  }
}
