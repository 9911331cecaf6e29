/**
 * The auto-flip cycle that the home page and the gallery page both run over
 * a fixed list of card ids: on every tick, unless a card is hovered, every
 * target card is turned face up again except the current one, which is
 * toggled, and the cursor moves on to the next target.
 */
module Attention {
  import opened Wrappers
  import Modular

  /**
   * A card's flip flag as the view reads it: a missing key reads as
   * `undefined`, which is falsy.
   */
  function Flag(flipped: map<int, bool>, id: int): bool
  {
    id in flipped && flipped[id]
  }

  /** No two positions of `targets` hold the same id. */
  ghost predicate Distinct(targets: seq<int>)
  {
    forall j, l :: 0 <= j < l < |targets| ==> targets[j] != targets[l]
  }

  /** The flip map with every id of `ids` set to false, in order. */
  function ResetAll(flipped: map<int, bool>, ids: seq<int>): map<int, bool>
    decreases |ids|
  {
    if ids == [] then flipped
    else ResetAll(flipped, ids[..|ids| - 1])[ids[|ids| - 1] := false]
  }

  /** Resetting sets exactly the listed ids to false and leaves every other entry alone. */
  lemma {:induction false} ResetAllFacts(flipped: map<int, bool>, ids: seq<int>)
    ensures forall k :: k in ids ==> k in ResetAll(flipped, ids) && !ResetAll(flipped, ids)[k]
    ensures forall k :: k !in ids ==>
      (k in ResetAll(flipped, ids) <==> k in flipped) &&
      (k in flipped ==> ResetAll(flipped, ids)[k] == flipped[k])
    decreases |ids|
  {
    if ids != [] {
      var init := ids[..|ids| - 1];
      ResetAllFacts(flipped, init);
      assert ids == init + [ids[|ids| - 1]];
      assert forall k :: k in ids <==> k in init || k == ids[|ids| - 1];
    }
  }

  /**
   * The flip map after one tick with the cursor at `i`: every target reset
   * to false, then `targets[i]` set to the negation of its previous flag.
   */
  function Ticked(flipped: map<int, bool>, targets: seq<int>, i: nat): map<int, bool>
    requires i < |targets|
  {
    ResetAll(flipped, targets)[targets[i] := !Flag(flipped, targets[i])]
  }

  /** The cursor after a tick: the next target, wrapping around. */
  function NextCursor(i: nat, targets: seq<int>): (j: nat)
    requires i < |targets|
    ensures j < |targets|
    ensures i + 1 < |targets| ==> j == i + 1
    ensures i + 1 == |targets| ==> j == 0
  {
    if i + 1 < |targets| then Modular.ModUnique(i + 1, |targets|, 0, i + 1); (i + 1) % |targets|
    else Modular.ModUnique(i + 1, |targets|, 1, 0); (i + 1) % |targets|
  }

  /** A tick resets every target other than the current one to false. */
  lemma TickedResetsOtherTargets(flipped: map<int, bool>, targets: seq<int>, i: nat)
    requires i < |targets|
    ensures forall j :: 0 <= j < |targets| && targets[j] != targets[i] ==>
      targets[j] in Ticked(flipped, targets, i) && !Ticked(flipped, targets, i)[targets[j]]
  {
    ResetAllFacts(flipped, targets);
  }

  /** A tick toggles the current target relative to its previous flag. */
  lemma TickedTogglesCurrent(flipped: map<int, bool>, targets: seq<int>, i: nat)
    requires i < |targets|
    ensures targets[i] in Ticked(flipped, targets, i)
    ensures Flag(Ticked(flipped, targets, i), targets[i]) == !Flag(flipped, targets[i])
  {
    ResetAllFacts(flipped, targets);
  }

  /** A tick leaves the entries of non-target ids as they were, present or absent. */
  lemma TickedKeepsNonTargets(flipped: map<int, bool>, targets: seq<int>, i: nat)
    requires i < |targets|
    ensures forall k :: k !in targets ==>
      (k in Ticked(flipped, targets, i) <==> k in flipped) &&
      (k in flipped ==> Ticked(flipped, targets, i)[k] == flipped[k])
  {
    ResetAllFacts(flipped, targets);
  }

  /** After any tick, at most one target id is flipped, and that one is the current target. */
  lemma TickedAtMostOne(flipped: map<int, bool>, targets: seq<int>, i: nat)
    requires i < |targets|
    ensures forall j :: 0 <= j < |targets| && Flag(Ticked(flipped, targets, i), targets[j]) ==> targets[j] == targets[i]
  {
    ResetAllFacts(flipped, targets);
  }

  /**
   * A tick leaves exactly one target flipped if and only if the current
   * target was not flipped before; otherwise it leaves none flipped.
   */
  lemma TickedExactlyOneIff(flipped: map<int, bool>, targets: seq<int>, i: nat)
    requires i < |targets|
    ensures (exists j :: 0 <= j < |targets| && Flag(Ticked(flipped, targets, i), targets[j])) <==> !Flag(flipped, targets[i])
  {
    TickedTogglesCurrent(flipped, targets, i);
    TickedAtMostOne(flipped, targets, i);
    if !Flag(flipped, targets[i]) {
      assert Flag(Ticked(flipped, targets, i), targets[i]);
    }
  }

  /** Only `targets[c]` is flipped among the targets. */
  ghost predicate OnlyFlipped(flipped: map<int, bool>, targets: seq<int>, c: nat)
  {
    c < |targets| &&
    forall j :: 0 <= j < |targets| ==> Flag(flipped, targets[j]) == (targets[j] == targets[c])
  }

  /** No target is flipped. */
  ghost predicate NoneFlipped(flipped: map<int, bool>, targets: seq<int>)
  {
    forall j :: 0 <= j < |targets| ==> !Flag(flipped, targets[j])
  }

  /** The flip map after `k` ticks with nothing hovered, starting with the cursor at `i`. */
  function Ticks(flipped: map<int, bool>, targets: seq<int>, i: nat, k: nat): map<int, bool>
    requires i < |targets|
    decreases k
  {
    if k == 0 then flipped
    else Ticks(Ticked(flipped, targets, i), targets, NextCursor(i, targets), k - 1)
  }

  /** One tick hands the single flip on from `targets[c]` to the next target. */
  lemma TickHandsOn(flipped: map<int, bool>, targets: seq<int>, c: nat)
    requires Distinct(targets) && |targets| >= 2 && c < |targets|
    requires OnlyFlipped(flipped, targets, c)
    ensures OnlyFlipped(Ticked(flipped, targets, NextCursor(c, targets)), targets, NextCursor(c, targets))
  {
    var next := NextCursor(c, targets);
    assert targets[next] != targets[c];
    TickedTogglesCurrent(flipped, targets, next);
    TickedAtMostOne(flipped, targets, next);
  }

  /** The facts one step of `TicksHandOn` needs, kept apart from the induction. */
  lemma TicksStep(flipped: map<int, bool>, targets: seq<int>, c: nat, k: nat)
    requires Distinct(targets) && |targets| >= 2 && c < |targets| && k > 0
    requires OnlyFlipped(flipped, targets, c)
    ensures OnlyFlipped(Ticked(flipped, targets, NextCursor(c, targets)), targets, NextCursor(c, targets))
    ensures (NextCursor(c, targets) + (k - 1)) % |targets| == (c + k) % |targets|
    ensures Ticks(flipped, targets, NextCursor(c, targets), k) ==
      Ticks(Ticked(flipped, targets, NextCursor(c, targets)), targets,
            NextCursor(NextCursor(c, targets), targets), k - 1)
  {
    TickHandsOn(flipped, targets, c);
    Modular.ModSucc(c, k - 1, |targets|);
  }

  /**
   * With distinct targets (at least two), once only `targets[c]` is flipped
   * and the cursor is at the next target, each tick hands the flip on to the
   * next target in round-robin order.
   */
  lemma {:induction false} TicksHandOn(flipped: map<int, bool>, targets: seq<int>, c: nat, k: nat)
    requires Distinct(targets) && |targets| >= 2 && c < |targets|
    requires OnlyFlipped(flipped, targets, c)
    ensures OnlyFlipped(Ticks(flipped, targets, NextCursor(c, targets), k), targets, (c + k) % |targets|)
    decreases k
  {
    if k == 0 {
      Modular.ModUnique(c, |targets|, 0, c);
    } else {
      TicksStep(flipped, targets, c, k);
      TicksHandOn(Ticked(flipped, targets, NextCursor(c, targets)), targets, NextCursor(c, targets), k - 1);
    }
  }

  /**
   * Starting with no target flipped and the cursor at `i`, after `k >= 1`
   * ticks exactly one target is flipped: the one `k - 1` places after `i`.
   */
  lemma RoundRobin(flipped: map<int, bool>, targets: seq<int>, i: nat, k: nat)
    requires Distinct(targets) && |targets| >= 2 && i < |targets|
    requires NoneFlipped(flipped, targets) && k >= 1
    ensures OnlyFlipped(Ticks(flipped, targets, i, k), targets, (i + k - 1) % |targets|)
  {
    var m := Ticked(flipped, targets, i);
    TickedTogglesCurrent(flipped, targets, i);
    TickedAtMostOne(flipped, targets, i);
    assert OnlyFlipped(m, targets, i);
    TicksHandOn(m, targets, i, k - 1);
  }

  /**
   * The initial flip followed by a first tick with the cursor at the first
   * target toggles that target straight back, so no target is left flipped.
   */
  lemma InitialFlipThenTickClears(flipped: map<int, bool>, targets: seq<int>)
    requires |targets| > 0
    ensures NoneFlipped(Ticked(flipped[targets[0] := true], targets, 0), targets)
  {
    TickedTogglesCurrent(flipped[targets[0] := true], targets, 0);
    TickedAtMostOne(flipped[targets[0] := true], targets, 0);
  }

  /**
   * The flip map after `k` ticks when the effect runs again before each
   * tick. Every flip changes the flip map the effect depends on, and each
   * run starts its cursor at the first target, so every tick is at cursor 0.
   */
  function RestartedTicks(flipped: map<int, bool>, targets: seq<int>, k: nat): map<int, bool>
    requires |targets| > 0
    decreases k
  {
    if k == 0 then flipped
    else Ticked(RestartedTicks(flipped, targets, k - 1), targets, 0)
  }

  /**
   * When the effect runs again before each tick, only the first target is
   * ever flipped after a tick, and each tick toggles it.
   */
  lemma RestartedTicksStayOnFirst(flipped: map<int, bool>, targets: seq<int>, k: nat)
    requires |targets| > 0 && k >= 1
    ensures forall j :: 0 <= j < |targets| && targets[j] != targets[0] ==>
      !Flag(RestartedTicks(flipped, targets, k), targets[j])
    ensures Flag(RestartedTicks(flipped, targets, k), targets[0]) == !Flag(RestartedTicks(flipped, targets, k - 1), targets[0])
  {
    var prev := RestartedTicks(flipped, targets, k - 1);
    TickedAtMostOne(prev, targets, 0);
    TickedTogglesCurrent(prev, targets, 0);
  }

  /**
   * The flip state one card section keeps: the card ids it cycles through,
   * the flip flag of every card, the cursor into the target list, and the
   * card the pointer is over, if any.
   */
  class FlipCycle {
    const targets: seq<int>
    var flipped: map<int, bool>
    var cursor: nat
    var hovered: Option<int>

    ghost predicate Valid()
      reads this
    {
      0 < |targets| && cursor < |targets|
    }

    /** The state when the section mounts: nothing flipped, nothing hovered. */
    constructor (targets: seq<int>)
      requires |targets| > 0
      ensures Valid()
      ensures this.targets == targets && flipped == map[] && cursor == 0 && hovered == None
    {
      this.targets := targets;
      flipped := map[];
      cursor := 0;
      hovered := None;
    }

    /** The pointer enters (`isHovered`) or leaves card `id`. */
    method Hover(id: int, isHovered: bool)
      requires Valid()
      modifies this
      ensures Valid()
      ensures hovered == (if isHovered then Some(id) else None)
      ensures flipped == old(flipped) && cursor == old(cursor)
      ensures isHovered ==> ShowsBack(id)
      ensures !isHovered ==> forall k :: ShowsBack(k) == Flag(flipped, k)
    {
      hovered := if isHovered then Some(id) else None;
    }

    /**
     * One firing of the auto-flip interval: when no card is hovered, reset
     * every target, toggle the current one and advance the cursor; when a
     * card is hovered, do nothing.
     */
    method Tick()
      requires Valid()
      modifies this
      ensures Valid() && hovered == old(hovered)
      ensures old(hovered).None? ==>
        flipped == Ticked(old(flipped), targets, old(cursor)) && cursor == NextCursor(old(cursor), targets)
      ensures old(hovered).Some? ==> flipped == old(flipped) && cursor == old(cursor)
      ensures old(hovered).None? ==>
        forall j :: 0 <= j < |targets| && ShowsBack(targets[j]) ==> targets[j] == targets[old(cursor)]
    {
      if hovered.Some? {
        return;
      }
      TickedAtMostOne(flipped, targets, cursor);
      var resetFlips := flipped;
      for j := 0 to |targets|
        invariant resetFlips == ResetAll(flipped, targets[..j])
      {
        assert targets[..j + 1][..j] == targets[..j];
        resetFlips := resetFlips[targets[j] := false];
      }
      assert targets[..|targets|] == targets;
      var targetId := targets[cursor];
      flipped := resetFlips[targetId := !Flag(flipped, targetId)];
      cursor := (cursor + 1) % |targets|;
    }

    /** The delayed first flip: when no card is hovered, the first target is set flipped. */
    method InitialFlip()
      requires Valid()
      modifies this
      ensures Valid() && hovered == old(hovered) && cursor == old(cursor)
      ensures old(hovered).None? ==> flipped == old(flipped)[targets[0] := true]
      ensures old(hovered).Some? ==> flipped == old(flipped)
    {
      if hovered.None? {
        flipped := flipped[targets[0] := true];
      }
    }

    /**
     * The effect setting the cycle up again (it depends on the hovered card
     * and on the flip map): the cursor, a local of the effect, starts over.
     */
    method Restart()
      requires Valid()
      modifies this
      ensures Valid() && cursor == 0
      ensures flipped == old(flipped) && hovered == old(hovered)
    {
      cursor := 0;
    }

    /** Card `id` shows its back: it is hovered, or its flip flag is set. */
    function ShowsBack(id: int): bool
      reads this
    {
      hovered == Some(id) || Flag(flipped, id)
    }
  }
}
