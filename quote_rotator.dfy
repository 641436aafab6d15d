/**
 * The rotating quote widget of the page: a pool of quote elements, each tagged
 * with its `data-quote` number and shown or hidden, a "next" button that moves
 * to the following number, and a random first quote.
 */
module QuoteRotator {
  import opened Wrappers
  import opened JsBuiltins

  /** The `data-quote` tag of the quote that setup appends to the markup's quotes. */
  const AppendedTag: int := 4

  /** The click handler's `currentIndex % totalQuotes + 1`, with JavaScript's `%`. */
  function NextIndex(current: int, total: int): (r: int)
    requires total >= 1
    ensures 0 <= current < total ==> r == current + 1
    ensures current == total ==> r == 1
  {
    JsRem(current, total) + 1
  }

  /**
   * A non-negative index leads into `1..total`; a negative one (JavaScript's `%`
   * keeps the dividend's sign) leads to at most 1.
   */
  lemma NextIndexRange(current: int, total: int)
    requires total >= 1
    ensures current >= 0 ==> 1 <= NextIndex(current, total) <= total
    ensures current < 0 ==> -total + 1 < NextIndex(current, total) <= 1
  {
  }

  /** The index reached from `i` after `k` clicks of "next". */
  function Advanced(i: int, total: int, k: nat): int
    requires total >= 1
  {
    if k == 0 then i else NextIndex(Advanced(i, total, k - 1), total)
  }

  /** Where `k <= total` clicks lead from `i` in `1..total`: `k` places on, wrapping past `total` to 1. */
  function Around(i: int, k: int, total: int): int {
    if i + k <= total then i + k else i + k - total
  }

  /** From an index in range, `k` clicks move `k` places around the cycle `1..total`. */
  lemma {:induction false} AdvancedFormula(i: int, total: int, k: nat)
    requires total >= 1 && 1 <= i <= total && k <= total
    ensures Advanced(i, total, k) == Around(i, k, total)
  {
    if k > 0 {
      AdvancedFormula(i, total, k - 1);
    }
  }

  /** `total` clicks from any index in range come back to that index. */
  lemma CycleCloses(i: int, total: int)
    requires total >= 1 && 1 <= i <= total
    ensures Advanced(i, total, total) == i
  {
    AdvancedFormula(i, total, total);
  }

  /** Every index in range is reached from every other within `total - 1` clicks. */
  lemma Reachable(i: int, j: int, total: int)
    requires total >= 1 && 1 <= i <= total && 1 <= j <= total
    ensures var k := if j >= i then j - i else j - i + total;
            0 <= k < total && Advanced(i, total, k) == j
  {
    var k := if j >= i then j - i else j - i + total;
    AdvancedFormula(i, total, k);
  }

  /** The first `total` indices visited are pairwise distinct: a single cycle, not a shuffle. */
  lemma OrbitDistinct(i: int, total: int, k1: nat, k2: nat)
    requires total >= 1 && 1 <= i <= total && k1 < k2 < total
    ensures Advanced(i, total, k1) != Advanced(i, total, k2)
  {
    AdvancedFormula(i, total, k1);
    AdvancedFormula(i, total, k2);
  }

  /** A pool whose quotes are tagged `1, 2, ..., n` in document order. */
  predicate Canonical(tags: seq<int>) {
    forall i :: 0 <= i < |tags| ==> tags[i] == i + 1
  }

  /** The markup's quotes tagged `1..n`, plus the appended `4`, make a pool tagged `1..n+1` only when `n` is 3. */
  lemma AppendedTagFits(staticTags: seq<int>)
    requires Canonical(staticTags)
    ensures Canonical(staticTags + [AppendedTag]) <==> |staticTags| == 3
  {
    var pool := staticTags + [AppendedTag];
    if Canonical(pool) {
      assert pool[|staticTags|] == |staticTags| + 1;
    }
  }

  /**
   * With two markup quotes tagged 1 and 2, the pool is tagged 1, 2, 4: a click
   * from the quote tagged 2 asks for tag 3, which no quote carries, and leaves
   * no quote visible.
   */
  lemma AppendedTagLeavesGap()
    ensures Canonical([1, 2])
    ensures Step([1, 2, AppendedTag], 3, [false, true, false]) == Some([false, false, false])
  {
    var flags := [false, true, false];
    assert FirstIndexOf(flags, true) == Some(1) by {
      assert flags[0] == false && flags[1] == true;
    }
    assert NextIndex(2, 3) == 3;
    assert 3 !in [1, 2, AppendedTag];
    assert Shown([1, 2, AppendedTag], 3) == [false, false, false];
  }

  /** The tag the appended quote evidently should carry: one more than the number of markup quotes. */
  function CorrectedAppendedTag(n: nat): (r: int)
    ensures r >= 1
    ensures n == 3 ==> r == AppendedTag
  {
    n + 1
  }

  /** With the corrected tag, the markup's quotes tagged `1..n` and the appended quote make a pool tagged `1..n+1`, for every `n`. */
  lemma CorrectedAppendedTagFits(staticTags: seq<int>)
    requires Canonical(staticTags)
    ensures Canonical(staticTags + [CorrectedAppendedTag(|staticTags|)])
  {
    var pool := staticTags + [CorrectedAppendedTag(|staticTags|)];
    forall i | 0 <= i < |pool|
      ensures pool[i] == i + 1
    {
      if i < |staticTags| {
        assert pool[i] == staticTags[i];
      }
    }
  }

  /** The quote at `j` is visible and every other quote is hidden. */
  predicate OnlyVisible(flags: seq<bool>, j: int) {
    0 <= j < |flags| && flags[j] && forall k :: 0 <= k < |flags| && k != j ==> !flags[k]
  }

  /** The flags of `n` quotes of which only the one at `p` is visible. */
  function Spotlight(n: nat, p: int): (r: seq<bool>)
    ensures |r| == n
    ensures 0 <= p < n ==> OnlyVisible(r, p)
  {
    seq(n, i => i == p)
  }

  /** A single visible quote determines all the flags. */
  lemma OnlyVisibleIsSpotlight(flags: seq<bool>, j: int)
    requires OnlyVisible(flags, j)
    ensures flags == Spotlight(|flags|, j)
  {
  }

  /**
   * The visible flags after `showQuote(index)`: every quote is hidden, then the
   * first one (in document order) tagged `index`, if any, is shown.
   */
  function Shown(tags: seq<int>, index: int): (r: seq<bool>)
    ensures |r| == |tags|
    ensures index !in tags ==> true !in r
  {
    var hit := FirstIndexOf(tags, index);
    seq(|tags|, j requires 0 <= j < |tags| => hit == Some(j))
  }

  /** The quote at `j` is shown exactly when it is tagged `index` and no earlier quote is. */
  lemma ShownIff(tags: seq<int>, index: int)
    ensures forall j :: 0 <= j < |tags| ==>
              (Shown(tags, index)[j] <==> tags[j] == index && forall k :: 0 <= k < j ==> tags[k] != index)
  {
  }

  /** On a canonical pool, an index in range shows exactly its quote; any other index shows none. */
  lemma ShownCanonical(tags: seq<int>, index: int)
    requires Canonical(tags)
    ensures 1 <= index <= |tags| ==>
      (OnlyVisible(Shown(tags, index), index - 1) && Shown(tags, index) == Spotlight(|tags|, index - 1))
    ensures !(1 <= index <= |tags|) ==> true !in Shown(tags, index)
  {
    ShownIff(tags, index);
    if 1 <= index <= |tags| {
      OnlyVisibleIsSpotlight(Shown(tags, index), index - 1);
    }
    if !(1 <= index <= |tags|) {
      assert index !in tags;
    }
  }

  /**
   * One click of "next" on the visible flags: find the first visible quote,
   * read its tag and show the next index. `None` is the click whose handler
   * throws because no quote is visible.
   */
  function Step(tags: seq<int>, total: int, flags: seq<bool>): (r: Option<seq<bool>>)
    requires total >= 1 && |flags| == |tags|
    ensures r.Some? ==> |r.value| == |tags|
  {
    match FirstIndexOf(flags, true)
    case None => None
    case Some(p) => Some(Shown(tags, NextIndex(tags[p], total)))
  }

  /** `k` clicks; `None` once a click has thrown. */
  function Steps(tags: seq<int>, total: int, flags: seq<bool>, k: nat): (r: Option<seq<bool>>)
    requires total >= 1 && |flags| == |tags|
    ensures r.Some? ==> |r.value| == |tags|
    decreases k
  {
    if k == 0 then Some(flags)
    else
      var next := Step(tags, total, flags);
      if next.None? then None else Steps(tags, total, next.value, k - 1)
  }

  /** A click with no visible quote throws. */
  lemma StepWithoutVisible(tags: seq<int>, total: int, flags: seq<bool>)
    requires total >= 1 && |flags| == |tags| && true !in flags
    ensures Step(tags, total, flags) == None
  {
  }

  /** The position one place after `j` among `n` quotes, wrapping from the last to the first. */
  function Following(j: int, n: int): int {
    if j + 1 < n then j + 1 else 0
  }

  /** On a canonical pool a click moves the single visible quote one place on, wrapping at the end. */
  lemma {:induction false} StepMovesOn(tags: seq<int>, flags: seq<bool>, j: int)
    requires Canonical(tags) && |tags| >= 1 && |flags| == |tags| && OnlyVisible(flags, j)
    ensures Step(tags, |tags|, flags) == Some(Spotlight(|tags|, Following(j, |tags|)))
  {
    var n := |tags|;
    var hit := FirstIndexOf(flags, true);
    assert hit.Some?;
    assert hit.value == j;
    assert NextIndex(tags[j], n) == Following(j, n) + 1;
    ShownCanonical(tags, Following(j, n) + 1);
  }

  /** A first click that goes through leaves the remaining `k - 1` clicks on its result. */
  lemma StepsFirst(tags: seq<int>, flags: seq<bool>, next: seq<bool>, k: nat)
    requires |tags| >= 1 && |flags| == |tags| && k >= 1
    requires Step(tags, |tags|, flags) == Some(next)
    ensures Steps(tags, |tags|, flags, k) == Steps(tags, |tags|, next, k - 1)
  {
  }

  /** One place on, then `k - 1` more, is `k` places on. */
  lemma AroundFollowing(j: int, k: int, n: int)
    requires 0 <= j < n && 1 <= k <= n
    ensures Around(Following(j, n) + 1, k - 1, n) == Around(j + 1, k, n)
  {
  }

  /** After `k <= n` clicks from a single visible quote at `j`, exactly the quote `k` places on is visible. */
  lemma {:induction false} StepsMoveOn(tags: seq<int>, flags: seq<bool>, j: int, k: nat)
    requires Canonical(tags) && |tags| >= 1 && |flags| == |tags| && OnlyVisible(flags, j)
    requires k <= |tags|
    ensures Steps(tags, |tags|, flags, k) == Some(Spotlight(|tags|, Around(j + 1, k, |tags|) - 1))
    decreases k
  {
    var n := |tags|;
    if k == 0 {
      OnlyVisibleIsSpotlight(flags, j);
    } else {
      var j' := Following(j, n);
      StepsMoveOn(tags, Spotlight(n, j'), j', k - 1);
      StepsMoveOnStep(tags, flags, j, k);
    }
  }

  /** The inductive step of `StepsMoveOn`: the first click, then the remaining `k - 1`. */
  lemma {:induction false} StepsMoveOnStep(tags: seq<int>, flags: seq<bool>, j: int, k: nat)
    requires Canonical(tags) && |tags| >= 1 && |flags| == |tags| && OnlyVisible(flags, j)
    requires 1 <= k <= |tags|
    requires var n := |tags|; var j' := Following(j, n);
      Steps(tags, n, Spotlight(n, j'), k - 1) == Some(Spotlight(n, Around(j' + 1, k - 1, n) - 1))
    ensures Steps(tags, |tags|, flags, k) == Some(Spotlight(|tags|, Around(j + 1, k, |tags|) - 1))
  {
    var n := |tags|;
    var next := Spotlight(n, Following(j, n));
    StepMovesOn(tags, flags, j);
    StepsFirst(tags, flags, next, k);
    AroundFollowing(j, k, n);
  }

  /** On a canonical pool, `n` clicks starting from a single visible quote restore the visible flags. */
  lemma StepsCycle(tags: seq<int>, flags: seq<bool>, j: int)
    requires Canonical(tags) && |tags| >= 1 && |flags| == |tags| && OnlyVisible(flags, j)
    ensures Steps(tags, |tags|, flags, |tags|) == Some(flags)
  {
    var n := |tags|;
    StepsMoveOn(tags, flags, j, n);
    assert Around(j + 1, n, n) - 1 == j;
    OnlyVisibleIsSpotlight(flags, j);
  }

  /**
   * As written, the first quote shown is `floor(random * (n + 1))`, a number in
   * `0..n`, while the pool's tags run from 1 to n + 1. A pick of 0 shows no
   * quote, and the first click then throws; the last quote is never first.
   * Stated for the markup the hard-coded tag fits: three quotes tagged 1 to 3.
   */
  lemma StartAsWrittenMisses(staticTags: seq<int>, pick: int)
    requires Canonical(staticTags + [AppendedTag]) && 0 <= pick <= |staticTags|
    ensures var pool := staticTags + [AppendedTag];
            !Shown(pool, pick)[|staticTags|]
            && (pick == 0 ==> true !in Shown(pool, pick)
                              && Step(pool, |pool|, Shown(pool, pick)) == None)
  {
    var pool := staticTags + [AppendedTag];
    ShownCanonical(pool, pick);
  }

  /** The start index evidently intended: `floor(random * (n + 1)) + 1`, a number in `1..n+1`. */
  function CorrectedStart(pick: int, n: nat): (r: int)
    requires 0 <= pick <= n
    ensures 1 <= r <= n + 1
    ensures r - 1 == pick
  {
    pick + 1
  }

  /** With the corrected start, each quote of a canonical pool can be the first, and exactly one is visible. */
  lemma CorrectedStartShowsOne(pool: seq<int>, pick: int)
    requires Canonical(pool) && 0 <= pick < |pool|
    ensures OnlyVisible(Shown(pool, CorrectedStart(pick, |pool| - 1)), pick)
  {
    ShownCanonical(pool, CorrectedStart(pick, |pool| - 1));
  }

  /** What setup finds on the page: the quote container, the quotes' tags in document order, the "next" button. */
  datatype Page = Page(hasContainer: bool, quoteTags: seq<int>, hasNextButton: bool)

  /** The widget once set up: the pool's tags, the handler's `totalQuotes`, and each quote's visibility. */
  class Rotator {
    const tags: seq<int>
    const total: int
    const visible: array<bool>

    ghost predicate Valid() {
      visible.Length == |tags| && total == |tags| && total >= 1
    }

    /** Appends the extra quote (hidden, tagged `appended`) to the markup's quotes and shows the quote tagged `start`. */
    constructor (staticTags: seq<int>, appended: int, start: int)
      requires |staticTags| >= 1
      ensures Valid() && fresh(visible)
      ensures tags == staticTags + [appended] && total == |staticTags| + 1
      ensures visible[..] == Shown(tags, start)
    {
      tags := staticTags + [appended];
      total := |staticTags| + 1;
      visible := new bool[|staticTags| + 1];
      new;
      ShowQuote(start);
    }

    /** `showQuote(index)`: hide every quote, then show the first one tagged `index`. */
    method ShowQuote(index: int)
      requires Valid()
      modifies visible
      ensures visible[..] == Shown(tags, index)
    {
      var i := 0;
      while i < visible.Length
        invariant 0 <= i <= visible.Length
        invariant forall k :: 0 <= k < i ==> !visible[k]
      {
        visible[i] := false;
        i := i + 1;
      }
      var j := 0;
      while j < |tags| && tags[j] != index
        invariant 0 <= j <= |tags|
        invariant forall k :: 0 <= k < j ==> tags[k] != index
      {
        j := j + 1;
      }
      if j < |tags| {
        visible[j] := true;
      }
      ShownIff(tags, index);
      assert forall k :: 0 <= k < |tags| ==> visible[..][k] == Shown(tags, index)[k];
    }

    /**
     * The "next" click handler. It fails (`ok` false, nothing changes) when no
     * quote is visible: there the source dereferences a null query result.
     */
    method Advance() returns (ok: bool)
      requires Valid()
      modifies visible
      ensures ok <==> true in old(visible[..])
      ensures Step(tags, total, old(visible[..])) == (if ok then Some(visible[..]) else None)
      ensures !ok ==> visible[..] == old(visible[..])
    {
      var p := 0;
      while p < visible.Length && !visible[p]
        invariant 0 <= p <= visible.Length
        invariant forall k :: 0 <= k < p ==> !visible[k]
      {
        p := p + 1;
      }
      if p == visible.Length {
        assert true !in visible[..];
        return false;
      }
      assert visible[..][p];
      ghost var before := visible[..];
      assert FirstIndexOf(before, true) == Some(p);
      ShowQuote(NextIndex(tags[p], total));
      ok := true;
    }
  }

  /**
   * `setupQuotes` as written: nothing happens unless the container, at least
   * one quote and the button are present; otherwise the quote tagged `4` is
   * appended and the quote tagged `pick` is shown, with `pick` the value of
   * `floor(random * (n + 1))` for `n` markup quotes.
   */
  method SetupQuotes(page: Page, pick: int) returns (r: Option<Rotator>)
    requires 0 <= pick <= |page.quoteTags|
    ensures r.Some? <==> page.hasContainer && |page.quoteTags| > 0 && page.hasNextButton
    ensures r.Some? ==> fresh(r.value) && fresh(r.value.visible) && r.value.Valid()
    ensures r.Some? ==> r.value.tags == page.quoteTags + [AppendedTag]
                        && r.value.total == |page.quoteTags| + 1
                        && r.value.visible[..] == Shown(r.value.tags, pick)
  {
    if !page.hasContainer || |page.quoteTags| == 0 || !page.hasNextButton {
      return None;
    }
    var rotator := new Rotator(page.quoteTags, AppendedTag, pick);
    return Some(rotator);
  }

  /**
   * `setupQuotes` with both corrections: the appended quote is tagged `n + 1`
   * and the start is `pick + 1`. On markup tagged `1..n`, exactly the quote at
   * position `pick` is visible, whatever `n` is.
   */
  method SetupQuotesFixed(page: Page, pick: int) returns (r: Option<Rotator>)
    requires 0 <= pick <= |page.quoteTags|
    ensures r.Some? <==> page.hasContainer && |page.quoteTags| > 0 && page.hasNextButton
    ensures r.Some? ==> fresh(r.value) && fresh(r.value.visible) && r.value.Valid()
    ensures r.Some? ==> r.value.tags == page.quoteTags + [CorrectedAppendedTag(|page.quoteTags|)]
                        && r.value.total == |page.quoteTags| + 1
                        && r.value.visible[..] == Shown(r.value.tags, CorrectedStart(pick, |page.quoteTags|))
    ensures r.Some? && Canonical(page.quoteTags) ==> OnlyVisible(r.value.visible[..], pick)
  {
    if !page.hasContainer || |page.quoteTags| == 0 || !page.hasNextButton {
      return None;
    }
    var n := |page.quoteTags|;
    var rotator := new Rotator(page.quoteTags, CorrectedAppendedTag(n), CorrectedStart(pick, n));
    if Canonical(page.quoteTags) {
      CorrectedAppendedTagFits(page.quoteTags);
      CorrectedStartShowsOne(rotator.tags, pick);
    }
    return Some(rotator);
  }
}
