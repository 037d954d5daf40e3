/**
 * The windowed day-column scroller (`VirtualScroller` in virtualScroller.ts).
 *
 * The scroller keeps day columns mounted only for the day indices near the
 * visible part of a horizontally scrolling container. Each mounted index has
 * one element in the body container and one in the header container, both
 * tagged with a `data-index` attribute and positioned at `left = index * itemWidth`.
 *
 * Model: a container is the sequence of its tagged elements in DOM order;
 * the `visibleItems` set is a sequence without duplicates (a JavaScript `Set`
 * iterates in insertion order); the scroll position and viewport width are
 * parameters of `Update`, read from the container in the source. A ghost log
 * records every `addItem` / `removeItem` call.
 */
module VirtualScrolling {
  import opened Ranges

  /** The ceiling on day indices (`totalItems`). */
  const TotalItems: int := 1000

  /** A mounted column: its `data-index` tag and its inline `left` and `width` in pixels. */
  datatype Element = Element(index: int, left: int, width: int)

  /** One call of `addItem` or `removeItem`. */
  datatype Call = Add(index: int) | Remove(index: int)

  /** What the scroll handler reports to its `onScroll` callback. */
  datatype ScrollReport = ScrollReport(left: nat, top: nat)

  /** The element `addItem(i)` creates when the item width is `w`. */
  function Placed(i: int, w: nat): (e: Element)
    ensures e.index == i && e.width == w && e.left == e.index * e.width
  {
    Element(i, i * w, w)
  }

  function Max(a: int, b: int): int {
    if a >= b then a else b
  }

  function Min(a: int, b: int): int {
    if a <= b then a else b
  }

  /** `Math.ceil(a / b)`: the least multiple count of `b` covering `a`. */
  function CeilDiv(a: nat, b: nat): (q: nat)
    requires b > 0
    ensures a <= q * b < a + b
  {
    (a + b - 1) / b
  }

  /** The first mounted index: never negative. */
  function StartIndex(scrollLeft: nat, itemWidth: nat, overscan: int): (r: int)
    requires itemWidth > 0
    ensures r >= 0
    ensures r >= scrollLeft / itemWidth - overscan
    ensures r == 0 || r == scrollLeft / itemWidth - overscan
  {
    Max(0, scrollLeft / itemWidth - overscan)
  }

  /** The last mounted index: never above `TotalItems`. */
  function EndIndex(scrollLeft: nat, clientWidth: nat, itemWidth: nat, overscan: int): (r: int)
    requires itemWidth > 0
    ensures r <= TotalItems
    ensures r <= CeilDiv(scrollLeft + clientWidth, itemWidth) + overscan
    ensures r == TotalItems || r == CeilDiv(scrollLeft + clientWidth, itemWidth) + overscan
  {
    Min(TotalItems, CeilDiv(scrollLeft + clientWidth, itemWidth) + overscan)
  }

  /** The indices `update` mounts, ascending (`newVisibleItems`). */
  function Window(scrollLeft: nat, clientWidth: nat, itemWidth: nat, overscan: int): (r: seq<int>)
    requires itemWidth > 0
    ensures forall x :: x in r <==>
      StartIndex(scrollLeft, itemWidth, overscan) <= x <= EndIndex(scrollLeft, clientWidth, itemWidth, overscan)
    ensures NoDup(r)
    ensures forall j, k :: 0 <= j < k < |r| ==> r[j] < r[k]
  {
    var lo, hi := StartIndex(scrollLeft, itemWidth, overscan), EndIndex(scrollLeft, clientWidth, itemWidth, overscan);
    RangeMembers(lo, hi);
    Range(lo, hi)
  }

  lemma MulMonotone(x: int, y: int, w: nat)
    requires x <= y
    ensures x * w <= y * w
  {
  }

  /** `floor(a / w) <= k` exactly when `a` lies below `(k + 1)` widths. */
  lemma FloorAtMost(a: nat, w: nat, k: int)
    requires w > 0
    ensures a / w <= k <==> a < (k + 1) * w
  {
    var q := a / w;
    assert a == q * w + a % w;
    if q <= k {
      MulMonotone(q + 1, k + 1, w);
    } else {
      MulMonotone(k + 1, q, w);
    }
  }

  /** `ceil(a / w) >= k` exactly when `k - 1` widths fall short of `a`. */
  lemma CeilAtLeast(a: nat, w: nat, k: int)
    requires w > 0
    ensures CeilDiv(a, w) >= k <==> (k - 1) * w < a
  {
    var q := CeilDiv(a, w);
    if q >= k {
      MulMonotone(k - 1, q - 1, w);
    } else {
      MulMonotone(q, k - 1, w);
    }
  }

  /**
   * The window in pixel terms: index `i` is mounted exactly when it lies in
   * `[0, TotalItems]`, its column extended by `overscan` widths to the right
   * ends after `scrollLeft`, and its column extended by `overscan + 1`
   * widths to the left starts before the viewport's right edge.
   */
  lemma WindowGeometry(scrollLeft: nat, clientWidth: nat, itemWidth: nat, overscan: int, i: int)
    requires itemWidth > 0
    ensures i in Window(scrollLeft, clientWidth, itemWidth, overscan) <==>
              && 0 <= i <= TotalItems
              && scrollLeft < (i + overscan + 1) * itemWidth
              && (i - overscan - 1) * itemWidth < scrollLeft + clientWidth
  {
    var lo := StartIndex(scrollLeft, itemWidth, overscan);
    var hi := EndIndex(scrollLeft, clientWidth, itemWidth, overscan);
    RangeMembers(lo, hi);
    FloorAtMost(scrollLeft, itemWidth, i + overscan);
    CeilAtLeast(scrollLeft + clientWidth, itemWidth, i - overscan);
  }

  /** Scrolled to 650 px with a 900 px viewport, 300 px columns and overscan 1, indices 1 to 7 are mounted. */
  lemma WindowExample()
    ensures Window(650, 900, 300, 1) == [1, 2, 3, 4, 5, 6, 7]
  {
    assert CeilDiv(1550, 300) == 6;
  }

  /** The number of elements tagged `i` in a container. */
  function Count(s: seq<Element>, i: int): nat {
    if s == [] then 0 else Count(s[..|s| - 1], i) + (if s[|s| - 1].index == i then 1 else 0)
  }

  /** A container after every element tagged `i` is removed from it. */
  function Without(s: seq<Element>, i: int): (r: seq<Element>)
    ensures |r| == |s| - Count(s, i)
  {
    if s == [] then []
    else Without(s[..|s| - 1], i) + (if s[|s| - 1].index == i then [] else [s[|s| - 1]])
  }

  lemma CountAppend(s: seq<Element>, e: Element, i: int)
    ensures Count(s + [e], i) == Count(s, i) + (if e.index == i then 1 else 0)
  {
    assert (s + [e])[..|s|] == s;
  }

  /** Removing the elements tagged `i` leaves none tagged `i` and every other tag's count as it was. */
  lemma {:induction false} CountWithout(s: seq<Element>, i: int, x: int)
    ensures Count(Without(s, i), x) == if x == i then 0 else Count(s, x)
  {
    if s != [] {
      var p := s[..|s| - 1];
      var e := s[|s| - 1];
      assert s == p + [e];
      CountWithout(p, i, x);
      CountAppend(p, e, x);
      if e.index != i {
        assert Without(s, i) == Without(p, i) + [e];
        CountAppend(Without(p, i), e, x);
      } else {
        assert Without(s, i) == Without(p, i);
      }
    }
  }

  /** Removal keeps only elements that were there, none tagged `i`. */
  lemma {:induction false} WithoutSubset(s: seq<Element>, i: int)
    ensures forall e :: e in Without(s, i) ==> e in s && e.index != i
  {
    if s != [] {
      var p := s[..|s| - 1];
      WithoutSubset(p, i);
      assert s == p + [s[|s| - 1]];
    }
  }

  /** Containers whose tags agree position by position hold each tag equally often. */
  lemma {:induction false} CountSameTags(s: seq<Element>, t: seq<Element>, x: int)
    requires |s| == |t|
    requires forall k :: 0 <= k < |s| ==> s[k].index == t[k].index
    ensures Count(s, x) == Count(t, x)
  {
    if s != [] {
      CountSameTags(s[..|s| - 1], t[..|t| - 1], x);
    }
  }

  /** The `removeItem` calls for the indices of `was` (in order) that are not in `now`. */
  function RemoveCalls(was: seq<int>, now: seq<int>): seq<Call> {
    if was == [] then []
    else
      var x := was[|was| - 1];
      RemoveCalls(was[..|was| - 1], now) + (if x in now then [] else [Remove(x)])
  }

  /** The `addItem` calls for the indices of `now` (in order) that are not in `was`. */
  function AddCalls(now: seq<int>, was: seq<int>): seq<Call> {
    if now == [] then []
    else
      var x := now[|now| - 1];
      AddCalls(now[..|now| - 1], was) + (if x in was then [] else [Add(x)])
  }

  /** The calls `update` makes when the visible indices go from `was` to `now`. */
  function Diff(was: seq<int>, now: seq<int>): seq<Call> {
    RemoveCalls(was, now) + AddCalls(now, was)
  }

  /** A container after a sequence of `addItem` / `removeItem` calls with item width `w`. */
  function Apply(s: seq<Element>, calls: seq<Call>, w: nat): seq<Element>
    decreases |calls|
  {
    if calls == [] then s
    else
      var prev := Apply(s, calls[..|calls| - 1], w);
      match calls[|calls| - 1]
      case Add(i) => prev + [Placed(i, w)]
      case Remove(i) => Without(prev, i)
  }

  lemma ApplySnoc(s: seq<Element>, calls: seq<Call>, c: Call, w: nat)
    ensures Apply(s, calls + [c], w) ==
              if c.Add? then Apply(s, calls, w) + [Placed(c.index, w)] else Without(Apply(s, calls, w), c.index)
  {
    assert (calls + [c])[..|calls|] == calls;
  }

  /** Applying two batches of calls one after the other is applying their concatenation. */
  lemma {:induction false} ApplyConcat(s: seq<Element>, a: seq<Call>, b: seq<Call>, w: nat)
    ensures Apply(Apply(s, a, w), b, w) == Apply(s, a + b, w)
    decreases |b|
  {
    if b == [] {
      assert a + b == a;
    } else {
      var p := b[..|b| - 1];
      var c := b[|b| - 1];
      ApplyConcat(s, a, p, w);
      assert b == p + [c];
      assert a + b == (a + p) + [c];
      ApplySnoc(Apply(s, a, w), p, c, w);
      ApplySnoc(s, a + p, c, w);
    }
  }

  /** A container holds exactly one element for each index of `v` and none for any other index. */
  ghost predicate MountedOnce(s: seq<Element>, v: seq<int>) {
    forall i :: Count(s, i) == if i in v then 1 else 0
  }

  /** Every element of a container sits at `index * w` with width `w`. */
  ghost predicate AllPlaced(s: seq<Element>, w: nat) {
    forall e :: e in s ==> e == Placed(e.index, w)
  }

  /** Every call places the element it adds at `index * w`, so a container whose elements are all placed stays so. */
  lemma {:induction false} ApplyKeepsPlaced(s: seq<Element>, calls: seq<Call>, w: nat)
    requires AllPlaced(s, w)
    ensures AllPlaced(Apply(s, calls, w), w)
    decreases |calls|
  {
    if calls != [] {
      var p := calls[..|calls| - 1];
      ApplyKeepsPlaced(s, p, w);
      WithoutSubset(Apply(s, p, w), calls[|calls| - 1].index);
    }
  }

  /** The removal calls leave no element for an index that left, and every other count as it was. */
  lemma {:induction false} RemoveCallsCount(s: seq<Element>, was: seq<int>, now: seq<int>, w: nat, x: int)
    ensures Count(Apply(s, RemoveCalls(was, now), w), x) == if x in was && x !in now then 0 else Count(s, x)
  {
    if was != [] {
      var p := was[..|was| - 1];
      var y := was[|was| - 1];
      assert was == p + [y];
      RemoveCallsCount(s, p, now, w, x);
      if y !in now {
        ApplySnoc(s, RemoveCalls(p, now), Remove(y), w);
        CountWithout(Apply(s, RemoveCalls(p, now), w), y, x);
      } else {
        assert RemoveCalls(was, now) == RemoveCalls(p, now);
      }
    }
  }

  /** The adding calls for distinct indices add one element for each index that entered, and nothing else. */
  lemma {:induction false} AddCallsCount(s: seq<Element>, now: seq<int>, was: seq<int>, w: nat, x: int)
    requires NoDup(now)
    ensures Count(Apply(s, AddCalls(now, was), w), x) == Count(s, x) + (if x in now && x !in was then 1 else 0)
  {
    if now != [] {
      var p := now[..|now| - 1];
      var y := now[|now| - 1];
      assert now == p + [y];
      AddCallsCount(s, p, was, w, x);
      assert y !in p by {
        forall k | 0 <= k < |p|
          ensures p[k] != y
        {
          assert now[k] == p[k];
        }
      }
      assert x in now <==> x in p || x == y;
      if y !in was {
        assert AddCalls(now, was) == AddCalls(p, was) + [Add(y)];
        ApplySnoc(s, AddCalls(p, was), Add(y), w);
        CountAppend(Apply(s, AddCalls(p, was), w), Placed(y, w), x);
      } else {
        assert AddCalls(now, was) == AddCalls(p, was);
      }
    }
  }

  /**
   * The calls of one `update` take a container holding each index of `was`
   * once to one holding each index of `now` once.
   */
  lemma DiffRemounts(s: seq<Element>, was: seq<int>, now: seq<int>, w: nat)
    requires MountedOnce(s, was) && NoDup(now)
    ensures MountedOnce(Apply(s, Diff(was, now), w), now)
  {
    ApplyConcat(s, RemoveCalls(was, now), AddCalls(now, was), w);
    forall x
      ensures Count(Apply(s, Diff(was, now), w), x) == if x in now then 1 else 0
    {
      RemoveCallsCount(s, was, now, w, x);
      AddCallsCount(Apply(s, RemoveCalls(was, now), w), now, was, w, x);
    }
  }

  /** `update` removes exactly the indices that left the window and only those. */
  lemma {:induction false} RemoveCallsExact(was: seq<int>, now: seq<int>)
    ensures forall c :: c in RemoveCalls(was, now) ==> c.Remove?
    ensures forall i :: Remove(i) in RemoveCalls(was, now) <==> i in was && i !in now
  {
    if was != [] {
      var p := was[..|was| - 1];
      RemoveCallsExact(p, now);
      assert was == p + [was[|was| - 1]];
    }
  }

  /** `update` adds exactly the indices that entered the window and only those. */
  lemma {:induction false} AddCallsExact(now: seq<int>, was: seq<int>)
    ensures forall c :: c in AddCalls(now, was) ==> c.Add?
    ensures forall i :: Add(i) in AddCalls(now, was) <==> i in now && i !in was
  {
    if now != [] {
      var p := now[..|now| - 1];
      AddCallsExact(p, was);
      assert now == p + [now[|now| - 1]];
    }
  }

  /**
   * The calls of one `update`: `removeItem(i)` exactly for the indices that
   * were visible and are not any more, `addItem(i)` exactly for those that
   * were not visible and are now; an index already visible is never re-added.
   */
  lemma DiffCalls(was: seq<int>, now: seq<int>)
    ensures forall i :: Remove(i) in Diff(was, now) <==> i in was && i !in now
    ensures forall i :: Add(i) in Diff(was, now) <==> i in now && i !in was
  {
    RemoveCallsExact(was, now);
    AddCallsExact(now, was);
  }

  lemma {:induction false} RemoveCallsNone(was: seq<int>, now: seq<int>)
    requires forall x :: x in was ==> x in now
    ensures RemoveCalls(was, now) == []
  {
    if was != [] {
      RemoveCallsNone(was[..|was| - 1], now);
    }
  }

  lemma {:induction false} AddCallsNone(now: seq<int>, was: seq<int>)
    requires forall x :: x in now ==> x in was
    ensures AddCalls(now, was) == []
  {
    if now != [] {
      AddCallsNone(now[..|now| - 1], was);
    }
  }

  /** An `update` that finds the window unchanged makes no call and leaves both containers as they were. */
  lemma DiffOfSame(v: seq<int>, s: seq<Element>, w: nat)
    ensures Diff(v, v) == []
    ensures Apply(s, Diff(v, v), w) == s
  {
    RemoveCallsNone(v, v);
    AddCallsNone(v, v);
  }

  /** `visibleItems.add(x)` for each `x` of `n` in turn. */
  function Insert(v: seq<int>, n: seq<int>): seq<int> {
    if n == [] then v
    else
      var p := Insert(v, n[..|n| - 1]);
      var x := n[|n| - 1];
      if x in p then p else p + [x]
  }

  /** Adding to a set keeps it duplicate-free and holds exactly the old and the added members. */
  lemma {:induction false} InsertMembers(v: seq<int>, n: seq<int>)
    requires NoDup(v)
    ensures NoDup(Insert(v, n))
    ensures forall x :: x in Insert(v, n) <==> x in v || x in n
  {
    if n != [] {
      InsertMembers(v, n[..|n| - 1]);
      assert n == n[..|n| - 1] + [n[|n| - 1]];
    }
  }

  /** The `querySelectorAll(...).forEach(el => el.remove())` loop of `removeItem`. */
  method RemoveTagged(s: seq<Element>, i: int) returns (r: seq<Element>)
    ensures r == Without(s, i)
  {
    r := [];
    var k := 0;
    while k < |s|
      invariant 0 <= k <= |s|
      invariant r == Without(s[..k], i)
    {
      assert s[..k + 1][..k] == s[..k];
      if s[k].index != i {
        r := r + [s[k]];
      }
      k := k + 1;
    }
    assert s[..|s|] == s;
  }

  /** The restyling loop of `updateItemWidth`: every tagged element moves to `index * w` with width `w`. */
  method Restyle(s: seq<Element>, w: nat) returns (r: seq<Element>)
    ensures |r| == |s|
    ensures forall k :: 0 <= k < |s| ==> r[k] == Placed(s[k].index, w)
  {
    r := s;
    var k := 0;
    while k < |r|
      invariant 0 <= k <= |r| == |s|
      invariant forall j :: 0 <= j < k ==> r[j] == Placed(s[j].index, w)
      invariant forall j :: k <= j < |r| ==> r[j] == s[j]
    {
      r := r[k := Placed(r[k].index, w)];
      k := k + 1;
    }
  }

  /** The loop of `update()` that fills `newVisibleItems` with `startIndex..endIndex`. */
  method IndexRange(lo: int, hi: int) returns (r: seq<int>)
    ensures r == Range(lo, hi)
  {
    r := [];
    var i := lo;
    while i <= hi
      invariant i == lo || lo <= i <= hi + 1
      invariant r == Range(lo, i - 1)
    {
      r := r + [i];
      i := i + 1;
    }
  }

  class VirtualScroller {
    /** `options.itemWidth`, overwritten by `UpdateItemWidth`. */
    var itemWidth: nat
    /** `options.overscan`. */
    const overscan: int
    /** `visibleItems`, in insertion order. */
    var visible: seq<int>
    /** The tagged children of `options.container`. */
    var body: seq<Element>
    /** The tagged children of `options.headerContainer`. */
    var header: seq<Element>
    /** Every `addItem` / `removeItem` call so far. */
    ghost var log: seq<Call>

    /** Both containers hold the same elements, and each visible index exactly once. */
    ghost predicate Mounted()
      reads this
    {
      header == body && NoDup(visible) && MountedOnce(body, visible)
    }

    /** Every element sits at `index * itemWidth` with width `itemWidth`. */
    ghost predicate Positioned()
      reads this
    {
      AllPlaced(body, itemWidth)
    }

    ghost predicate Valid()
      reads this
    {
      itemWidth > 0 && Mounted() && Positioned()
    }

    /** The constructor; its initial mount runs later, in an animation frame (`InitialMount`). */
    constructor (itemWidth: nat, overscan: int)
      requires itemWidth > 0
      ensures Valid()
      ensures this.itemWidth == itemWidth && this.overscan == overscan
      ensures visible == [] && body == [] && header == [] && log == []
    {
      this.itemWidth := itemWidth;
      this.overscan := overscan;
      visible := [];
      body := [];
      header := [];
      log := [];
    }

    /** `addItem(i)`: append one element tagged `i` to each container. */
    method AddItem(i: int)
      modifies this
      ensures body == old(body) + [Placed(i, itemWidth)]
      ensures header == old(header) + [Placed(i, itemWidth)]
      ensures log == old(log) + [Add(i)]
      ensures visible == old(visible) && itemWidth == old(itemWidth)
    {
      var e := Placed(i, itemWidth);
      body := body + [e];
      header := header + [e];
      log := log + [Add(i)];
    }

    /** `removeItem(i)`: delete every element tagged `i` from both containers. */
    method RemoveItem(i: int)
      modifies this
      ensures body == Without(old(body), i)
      ensures header == Without(old(header), i)
      ensures log == old(log) + [Remove(i)]
      ensures visible == old(visible) && itemWidth == old(itemWidth)
    {
      body := RemoveTagged(body, i);
      header := RemoveTagged(header, i);
      log := log + [Remove(i)];
    }

    /**
     * The constructor's animation-frame callback: add indices `0` to
     * `ceil(clientWidth / itemWidth) + 2` without asking whether they are
     * already mounted. Only on an empty scroller does this keep `Valid()`.
     */
    method InitialMount(clientWidth: nat)
      requires itemWidth > 0 && header == body
      modifies this
      ensures itemWidth == old(itemWidth) && header == body
      ensures var initial := Range(0, CeilDiv(clientWidth, itemWidth) + 2);
              && log == old(log) + AddCalls(initial, [])
              && body == Apply(old(body), AddCalls(initial, []), itemWidth)
              && visible == Insert(old(visible), initial)
      ensures forall i :: Count(body, i) == Count(old(body), i) + (if 0 <= i <= CeilDiv(clientWidth, itemWidth) + 2 then 1 else 0)
      ensures old(Valid()) && old(visible) == [] ==> Valid() && visible == Range(0, CeilDiv(clientWidth, itemWidth) + 2)
    {
      var endIndex := CeilDiv(clientWidth, itemWidth) + 2;
      ghost var body0, visible0 := body, visible;
      MountUpTo(endIndex);
      MountedAfter(body0, visible0, endIndex, itemWidth);
    }

    /** The loop of the initial mount: `addItem(i)` and `visibleItems.add(i)` for `i` from `0` to `endIndex`. */
    method MountUpTo(endIndex: int)
      requires endIndex >= -1 && header == body
      modifies this
      ensures itemWidth == old(itemWidth) && header == body
      ensures log == old(log) + AddCalls(Range(0, endIndex), [])
      ensures body == Apply(old(body), AddCalls(Range(0, endIndex), []), itemWidth)
      ensures visible == Insert(old(visible), Range(0, endIndex))
    {
      ghost var body0, log0, visible0 := body, log, visible;
      ghost var mounted: seq<int> := [];
      ghost var calls: seq<Call> := [];
      var i := 0;
      while i <= endIndex
        invariant 0 <= i <= endIndex + 1
        invariant itemWidth == old(itemWidth) && header == body
        invariant mounted == Range(0, i - 1)
        invariant calls == AddCalls(mounted, [])
        invariant log == log0 + calls
        invariant body == Apply(body0, calls, itemWidth)
        invariant visible == Insert(visible0, mounted)
      {
        MountStep(i, mounted, calls, body0, visible0, itemWidth);
        AppendAssoc(log0, calls, [Add(i)]);
        MountIndex(i);
        mounted := mounted + [i];
        calls := calls + [Add(i)];
        i := i + 1;
      }
    }

    /** One pass of the initial mount's loop: `addItem(i)`, then `visibleItems.add(i)`. */
    method MountIndex(i: int)
      requires header == body
      modifies this
      ensures header == body && body == old(body) + [Placed(i, itemWidth)]
      ensures log == old(log) + [Add(i)]
      ensures visible == if i in old(visible) then old(visible) else old(visible) + [i]
      ensures itemWidth == old(itemWidth)
    {
      AddItem(i);
      if i !in visible {
        visible := visible + [i];
      }
    }

    /** `update()` with the window computed for the given scroll position. */
    method Update(scrollLeft: nat, clientWidth: nat)
      requires itemWidth > 0 && header == body
      modifies this
      ensures header == body && NoDup(visible)
      ensures old(Mounted()) ==> Mounted()
      ensures itemWidth == old(itemWidth)
      ensures visible == Window(scrollLeft, clientWidth, itemWidth, overscan)
      ensures log == old(log) + Diff(old(visible), visible)
      ensures body == Apply(old(body), Diff(old(visible), visible), itemWidth)
      ensures forall x :: Count(body, x) ==
                if x in old(visible) && x !in visible then 0
                else Count(old(body), x) + (if x in visible && x !in old(visible) then 1 else 0)
      ensures old(Positioned()) ==> Positioned()
    {
      var startIndex := StartIndex(scrollLeft, itemWidth, overscan);
      var endIndex := EndIndex(scrollLeft, clientWidth, itemWidth, overscan);
      var newVisible := IndexRange(startIndex, endIndex);
      RangeMembers(startIndex, endIndex);

      ghost var body0, log0, was := body, log, visible;
      RemoveStale(newVisible);
      ghost var body1, log1 := body, log;
      AddMissing(newVisible);
      ComposeLoops(was, newVisible, itemWidth, log0, log1, log, body0, body1, body);
      forall x {
        DiffCounts(body0, was, newVisible, itemWidth, x);
      }
      if MountedOnce(body0, was) {
        UpdateOutcome(body0, was, newVisible, itemWidth);
      }
      if AllPlaced(body0, itemWidth) {
        ApplyKeepsPlaced(body0, Diff(was, newVisible), itemWidth);
      }
      visible := newVisible;
    }

    /** The first loop of `update()`: remove every visible index that is not in `keep`. */
    method RemoveStale(keep: seq<int>)
      requires header == body
      modifies this
      ensures header == body
      ensures visible == old(visible) && itemWidth == old(itemWidth)
      ensures log == old(log) + RemoveCalls(visible, keep)
      ensures body == Apply(old(body), RemoveCalls(visible, keep), itemWidth)
    {
      ghost var body0, log0 := body, log;
      ghost var calls: seq<Call> := [];
      var k := 0;
      while k < |visible|
        invariant 0 <= k <= |visible|
        invariant visible == old(visible) && itemWidth == old(itemWidth) && header == body
        invariant calls == RemoveCalls(visible[..k], keep)
        invariant log == log0 + calls
        invariant body == Apply(body0, calls, itemWidth)
      {
        var index := visible[k];
        RemoveStep(visible, keep, k, calls, body0, itemWidth);
        if index !in keep {
          AppendAssoc(log0, calls, [Remove(index)]);
          RemoveItem(index);
          calls := calls + [Remove(index)];
        }
        k := k + 1;
      }
      assert visible[..|visible|] == visible;
    }

    /** The second loop of `update()`: add, in order, every index of `entering` that is not visible. */
    method AddMissing(entering: seq<int>)
      requires header == body
      modifies this
      ensures header == body
      ensures visible == old(visible) && itemWidth == old(itemWidth)
      ensures log == old(log) + AddCalls(entering, visible)
      ensures body == Apply(old(body), AddCalls(entering, visible), itemWidth)
    {
      ghost var body0, log0 := body, log;
      ghost var calls: seq<Call> := [];
      var k := 0;
      while k < |entering|
        invariant 0 <= k <= |entering|
        invariant visible == old(visible) && itemWidth == old(itemWidth) && header == body
        invariant calls == AddCalls(entering[..k], visible)
        invariant log == log0 + calls
        invariant body == Apply(body0, calls, itemWidth)
      {
        var index := entering[k];
        AddStep(entering, visible, k, calls, body0, itemWidth);
        if index !in visible {
          AppendAssoc(log0, calls, [Add(index)]);
          AddItem(index);
          calls := calls + [Add(index)];
        }
        k := k + 1;
      }
      assert entering[..|entering|] == entering;
    }

    /** The scroll handler's animation-frame callback: report the raw offsets, then `update()`. */
    method HandleScroll(scrollLeft: nat, scrollTop: nat, clientWidth: nat) returns (report: ScrollReport)
      requires itemWidth > 0 && header == body
      modifies this
      ensures header == body && NoDup(visible)
      ensures old(Valid()) ==> Valid()
      ensures forall x :: Count(body, x) ==
                if x in old(visible) && x !in visible then 0
                else Count(old(body), x) + (if x in visible && x !in old(visible) then 1 else 0)
      ensures report == ScrollReport(scrollLeft, scrollTop)
      ensures itemWidth == old(itemWidth)
      ensures visible == Window(scrollLeft, clientWidth, itemWidth, overscan)
      ensures log == old(log) + Diff(old(visible), visible)
      ensures body == Apply(old(body), Diff(old(visible), visible), itemWidth)
    {
      report := ScrollReport(scrollLeft, scrollTop);
      Update(scrollLeft, clientWidth);
    }

    /**
     * `updateItemWidth(w)`: store the new width, `update()` under it, then
     * move every tagged element of both containers to `index * w` with width `w`.
     */
    method UpdateItemWidth(newWidth: nat, scrollLeft: nat, clientWidth: nat)
      requires newWidth > 0 && header == body
      modifies this
      ensures header == body && NoDup(visible) && Positioned()
      ensures old(Mounted()) ==> Valid()
      ensures forall x :: Count(body, x) ==
                if x in old(visible) && x !in visible then 0
                else Count(old(body), x) + (if x in visible && x !in old(visible) then 1 else 0)
      ensures itemWidth == newWidth
      ensures visible == Window(scrollLeft, clientWidth, newWidth, overscan)
      ensures log == old(log) + Diff(old(visible), visible)
      ensures var updated := Apply(old(body), Diff(old(visible), visible), newWidth);
              && |body| == |updated|
              && forall k :: 0 <= k < |body| ==> body[k] == Placed(updated[k].index, newWidth)
    {
      itemWidth := newWidth;
      Update(scrollLeft, clientWidth);
      ghost var updated := body;
      body := Restyle(body, newWidth);
      header := Restyle(header, newWidth);
      assert header == body;
      forall x {
        CountSameTags(body, updated, x);
      }
      forall e | e in body
        ensures e == Placed(e.index, itemWidth)
      {
        var k :| 0 <= k < |body| && body[k] == e;
      }
    }

    /** `getItemWidth()`. */
    method GetItemWidth() returns (w: nat)
      ensures w == itemWidth
    {
      w := itemWidth;
    }
  }

  lemma AppendAssoc<T>(a: seq<T>, b: seq<T>, c: seq<T>)
    ensures (a + b) + c == a + (b + c)
  {
  }

  /** One step of the initial mount: adding index `i` extends the calls, the container and the visible set by one. */
  lemma MountStep(i: nat, mounted: seq<int>, calls: seq<Call>, body0: seq<Element>, v: seq<int>, w: nat)
    requires mounted == Range(0, i - 1) && calls == AddCalls(mounted, [])
    ensures Range(0, i) == mounted + [i]
    ensures AddCalls(mounted + [i], []) == calls + [Add(i)]
    ensures Insert(v, mounted + [i]) == if i in Insert(v, mounted) then Insert(v, mounted) else Insert(v, mounted) + [i]
    ensures Apply(body0, calls + [Add(i)], w) == Apply(body0, calls, w) + [Placed(i, w)]
  {
    assert (mounted + [i])[..|mounted|] == mounted;
    ApplySnoc(body0, calls, Add(i), w);
  }

  /** Mounting indices `0..n` adds one element for each of them and nothing else. */
  lemma MountCounts(s: seq<Element>, n: int, w: nat)
    ensures forall x :: Count(Apply(s, AddCalls(Range(0, n), []), w), x) == Count(s, x) + (if 0 <= x <= n then 1 else 0)
  {
    RangeMembers(0, n);
    forall x
      ensures Count(Apply(s, AddCalls(Range(0, n), []), w), x) == Count(s, x) + (if 0 <= x <= n then 1 else 0)
    {
      AddCallsCount(s, Range(0, n), [], w, x);
    }
  }

  /**
   * What the initial mount leaves behind: one more element for each index
   * `0..n`, all placed if they were before, and on an empty scroller each
   * of those indices visible and mounted exactly once.
   */
  lemma MountedAfter(s: seq<Element>, v: seq<int>, n: int, w: nat)
    ensures forall x :: Count(Apply(s, AddCalls(Range(0, n), []), w), x) == Count(s, x) + (if 0 <= x <= n then 1 else 0)
    ensures AllPlaced(s, w) ==> AllPlaced(Apply(s, AddCalls(Range(0, n), []), w), w)
    ensures MountedOnce(s, v) && v == [] ==>
              && Insert(v, Range(0, n)) == Range(0, n)
              && NoDup(Range(0, n))
              && MountedOnce(Apply(s, AddCalls(Range(0, n), []), w), Range(0, n))
  {
    MountCounts(s, n, w);
    if AllPlaced(s, w) {
      ApplyKeepsPlaced(s, AddCalls(Range(0, n), []), w);
    }
    if MountedOnce(s, v) && v == [] {
      RangeMembers(0, n);
      InsertAllNew(Range(0, n));
    }
  }

  /** One step of the removal loop of `update()`. */
  lemma RemoveStep(was: seq<int>, keep: seq<int>, k: int, calls: seq<Call>, body0: seq<Element>, w: nat)
    requires 0 <= k < |was| && calls == RemoveCalls(was[..k], keep)
    ensures RemoveCalls(was[..k + 1], keep) == if was[k] in keep then calls else calls + [Remove(was[k])]
    ensures Apply(body0, calls + [Remove(was[k])], w) == Without(Apply(body0, calls, w), was[k])
  {
    assert was[..k + 1] == was[..k] + [was[k]];
    assert was[..k + 1][..k] == was[..k];
    ApplySnoc(body0, calls, Remove(was[k]), w);
    assert calls + [] == calls;
  }

  /** One step of the adding loop of `update()`. */
  lemma AddStep(entering: seq<int>, was: seq<int>, k: int, calls: seq<Call>, body0: seq<Element>, w: nat)
    requires 0 <= k < |entering| && calls == AddCalls(entering[..k], was)
    ensures AddCalls(entering[..k + 1], was) == if entering[k] in was then calls else calls + [Add(entering[k])]
    ensures Apply(body0, calls + [Add(entering[k])], w) == Apply(body0, calls, w) + [Placed(entering[k], w)]
  {
    assert entering[..k + 1] == entering[..k] + [entering[k]];
    assert entering[..k + 1][..k] == entering[..k];
    ApplySnoc(body0, calls, Add(entering[k]), w);
    assert calls + [] == calls;
  }

  /** Inserting distinct values into an empty set gives them back in order. */
  lemma {:induction false} InsertAllNew(n: seq<int>)
    requires NoDup(n)
    ensures Insert([], n) == n
  {
    if n != [] {
      var p := n[..|n| - 1];
      InsertAllNew(p);
      InsertMembers([], p);
      assert n[|n| - 1] !in p;
    }
  }

  /** The two loops of `update()` together make the calls of `Diff`. */
  lemma ComposeLoops(was: seq<int>, now: seq<int>, w: nat, log0: seq<Call>, log1: seq<Call>, log2: seq<Call>,
                     body0: seq<Element>, body1: seq<Element>, body2: seq<Element>)
    requires log1 == log0 + RemoveCalls(was, now) && log2 == log1 + AddCalls(now, was)
    requires body1 == Apply(body0, RemoveCalls(was, now), w) && body2 == Apply(body1, AddCalls(now, was), w)
    ensures log2 == log0 + Diff(was, now)
    ensures body2 == Apply(body0, Diff(was, now), w)
  {
    AppendAssoc(log0, RemoveCalls(was, now), AddCalls(now, was));
    ApplyConcat(body0, RemoveCalls(was, now), AddCalls(now, was), w);
  }

  /**
   * The tag counts after one update, whatever they were before: an index
   * leaving the window loses every copy, one entering it gains one, and the
   * rest keep theirs.
   */
  lemma DiffCounts(s: seq<Element>, was: seq<int>, now: seq<int>, w: nat, x: int)
    requires NoDup(now)
    ensures Count(Apply(s, Diff(was, now), w), x) ==
              if x in was && x !in now then 0 else Count(s, x) + (if x in now && x !in was then 1 else 0)
  {
    ApplyConcat(s, RemoveCalls(was, now), AddCalls(now, was), w);
    RemoveCallsCount(s, was, now, w, x);
    AddCallsCount(Apply(s, RemoveCalls(was, now), w), now, was, w, x);
  }

  /** After the calls of one `update` the new window is mounted exactly once, and placement is kept. */
  lemma UpdateOutcome(s: seq<Element>, was: seq<int>, now: seq<int>, w: nat)
    requires MountedOnce(s, was) && NoDup(now)
    ensures MountedOnce(Apply(s, Diff(was, now), w), now)
    ensures AllPlaced(s, w) ==> AllPlaced(Apply(s, Diff(was, now), w), w)
  {
    DiffRemounts(s, was, now, w);
    if AllPlaced(s, w) {
      ApplyKeepsPlaced(s, Diff(was, now), w);
    }
  }
}
