/**
 * Scroll-reveal registration: each element that is not yet marked ready
 * takes the next value of a page-wide counter, which fixes its animation
 * delay and its entrance direction; it is then marked ready and observed.
 */
module Reveal {
  import opened Wrappers

  /** Milliseconds of delay per registered item, and the largest delay. */
  const DelayStepMs: nat := 90
  const MaxDelayMs: nat := 540

  /** The `--delay` of the item registered as number `n`. */
  function DelayMs(n: nat): (d: nat)
    ensures d <= MaxDelayMs
  {
    if n * DelayStepMs < MaxDelayMs then n * DelayStepMs else MaxDelayMs
  }

  /** The entrance class of the item registered as number `n`, if any. */
  function PatternClass(n: nat): Option<string> {
    if n % 3 == 1 then Some("reveal-left")
    else if n % 3 == 2 then Some("reveal-right")
    else None
  }

  /** The classes an item has once registered as number `n`. */
  function WithPattern(classes: set<string>, n: nat): set<string> {
    match PatternClass(n)
    case Some(c) => classes + {c}
    case None => classes
  }

  /** The reveal state of one node. */
  datatype ItemState = ItemState(revealReady: Option<string>, delayMs: Option<int>, classes: set<string>, observed: bool)

  /** The state of a node once registered as number `n`. */
  function Registered(st: ItemState, n: nat): (r: ItemState)
    ensures r.revealReady == Some("true") && r.observed
  {
    ItemState(Some("true"), Some(DelayMs(n)), WithPattern(st.classes, n), true)
  }

  /**
   * Registration as number `n` sets a delay of at most 540 ms and adds the
   * left class, the right class or neither as `n % 3` is 1, 2 or 0.
   */
  lemma RegisteredState(st: ItemState, n: nat)
    ensures var r := Registered(st, n);
      && r.delayMs.Some? && 0 <= r.delayMs.value <= MaxDelayMs
      && (n % 3 == 0 ==> r.classes == st.classes)
      && (n % 3 == 1 ==> r.classes == st.classes + {"reveal-left"})
      && (n % 3 == 2 ==> r.classes == st.classes + {"reveal-right"})
  {
  }

  /** A candidate for registration: a DOM node with its reveal state. */
  class RevealItem {
    /** Whether the node is an `HTMLElement`; other nodes are skipped. */
    const isElement: bool
    /** `dataset.revealReady`, absent until registration sets it. */
    var revealReady: Option<string>
    /** The `--delay` style property, in milliseconds. */
    var delayMs: Option<int>
    var classes: set<string>
    /** Whether the reveal observer watches the node. */
    var observed: bool

    constructor (isElement: bool, revealReady: Option<string>, classes: set<string>)
      ensures this.isElement == isElement && this.revealReady == revealReady && this.classes == classes
      ensures delayMs.None? && !observed
    {
      this.isElement := isElement;
      this.revealReady := revealReady;
      this.delayMs := None;
      this.classes := classes;
      this.observed := false;
    }

    predicate Ready()
      reads this
    {
      revealReady == Some("true")
    }

    function State(): ItemState
      reads this
    {
      ItemState(revealReady, delayMs, classes, observed)
    }

    /** Registers this item as number `n`: delay, entrance class, ready mark, observation. */
    method MarkRegistered(n: nat)
      modifies this
      ensures State() == Registered(old(State()), n)
    {
      delayMs := Some(DelayMs(n));
      var pattern := n % 3;
      if pattern == 1 {
        classes := classes + {"reveal-left"};
      }
      if pattern == 2 {
        classes := classes + {"reveal-right"};
      }
      revealReady := Some("true");
      observed := true;
    }
  }

  /** The item registers when visited: an element without the ready mark. */
  predicate Pending(item: RevealItem)
    reads item
  {
    item.isElement && !item.Ready()
  }

  /** How many of the first `k` items are pending. */
  function PendingCount(items: seq<RevealItem>, k: nat): (n: nat)
    requires k <= |items|
    reads items
    ensures n <= k
  {
    if k == 0 then 0 else PendingCount(items, k - 1) + (if Pending(items[k - 1]) then 1 else 0)
  }

  /** The page-wide registration counter. */
  class RevealScheduler {
    var revealIndex: nat

    constructor ()
      ensures revealIndex == 0
    {
      revealIndex := 0;
    }

    /**
     * The `forEach` callback of `registerRevealItems` on one item: an
     * element not yet ready takes the current counter value, which sets its
     * delay and entrance class, is marked ready and observed, and the
     * counter advances by one; any other item is skipped and the counter
     * stays put.
     */
    method Visit(item: RevealItem)
      modifies this, item
      ensures var registers := old(Pending(item));
        && revealIndex == old(revealIndex) + (if registers then 1 else 0)
        && item.State() == if registers then Registered(old(item.State()), old(revealIndex)) else old(item.State())
    {
      if !Pending(item) {
        return;
      }
      item.MarkRegistered(revealIndex);
      revealIndex := revealIndex + 1;
    }

    /**
     * `registerRevealItems`: every element not yet ready takes the next
     * counter value, in list order; other items stay as they were.
     */
    method Register(items: seq<RevealItem>)
      requires forall i, j | 0 <= i < |items| && 0 <= j < |items| && items[i] == items[j] :: i == j
      modifies this, set i | 0 <= i < |items| :: items[i]
      ensures revealIndex == old(revealIndex) + old(PendingCount(items, |items|))
      ensures forall i | 0 <= i < |items| && old(Pending(items[i])) ::
        items[i].State() == Registered(old(items[i].State()), old(revealIndex) + old(PendingCount(items, i)))
      ensures forall i | 0 <= i < |items| && !old(Pending(items[i])) :: items[i].State() == old(items[i].State())
      ensures forall i | 0 <= i < |items| && items[i].isElement :: items[i].Ready()
    {
      for k := 0 to |items|
        invariant revealIndex == old(revealIndex) + old(PendingCount(items, k))
        invariant forall i | 0 <= i < k && old(Pending(items[i])) ::
          items[i].State() == Registered(old(items[i].State()), old(revealIndex) + old(PendingCount(items, i)))
        invariant forall i | 0 <= i < |items| && !(i < k && old(Pending(items[i]))) :: items[i].State() == old(items[i].State())
      {
        Visit(items[k]);
      }
    }
  }

  /** Delays grow by 90 ms per item up to the seventh, and stay at 540 ms from then on. */
  lemma DelaySchedule(n: nat)
    ensures n <= 6 ==> DelayMs(n) == 90 * n
    ensures n >= 6 ==> DelayMs(n) == MaxDelayMs
    ensures DelayMs(n) <= DelayMs(n + 1)
  {
  }

  /** Entrance directions cycle none, left, right. */
  lemma PatternCycles(n: nat)
    ensures PatternClass(n + 3) == PatternClass(n)
    ensures PatternClass(3 * n).None?
    ensures PatternClass(3 * n + 1) == Some("reveal-left")
    ensures PatternClass(3 * n + 2) == Some("reveal-right")
  {
  }

  /** With every element already ready nothing is pending: a second call with the same items changes nothing. */
  lemma {:induction false} NothingPendingWhenAllReady(items: seq<RevealItem>, k: nat)
    requires k <= |items|
    requires forall i | 0 <= i < |items| && items[i].isElement :: items[i].Ready()
    ensures PendingCount(items, k) == 0
  {
    if k > 0 {
      NothingPendingWhenAllReady(items, k - 1);
    }
  }

  /** When no item is ready and all are elements, every item registers, in order. */
  lemma {:induction false} AllPendingWhenNoneReady(items: seq<RevealItem>, k: nat)
    requires k <= |items|
    requires forall i | 0 <= i < |items| :: items[i].isElement && !items[i].Ready()
    ensures PendingCount(items, k) == k
  {
    if k > 0 {
      AllPendingWhenNoneReady(items, k - 1);
    }
  }

  /** Pending items receive distinct counter values, increasing with their positions. */
  lemma {:induction false} PendingCountIncreases(items: seq<RevealItem>, i: nat, j: nat)
    requires i < j <= |items| && Pending(items[i])
    ensures PendingCount(items, i) < PendingCount(items, j)
    decreases j
  {
    if j > i + 1 {
      PendingCountIncreases(items, i, j - 1);
    }
  }
}
