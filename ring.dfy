/** Index arithmetic shared by the circular value lists (CircularValueList and
    its subclasses): where a logical position lives in the backing array, how a
    relative index is resolved, and what an append does to the retained
    contents, seen as a sequence from oldest to newest. */
module Ring {

  /** Physical slot of the element at logical position `i` (0 = oldest) in a
      ring of capacity `cap` whose oldest element sits at `tail`. */
  function Slot(tail: int, i: int, cap: int): (p: int)
    requires 0 <= tail < cap && 0 <= i < cap
    ensures 0 <= p < cap
  {
    if tail + i < cap then tail + i else tail + i - cap
  }

  /** The bookkeeping invariant of a circular value list: `num` retained
      elements, the buffer keeps its tail at 0 while it is filling, and `head`
      is the newest slot, or -1 while the list is empty. */
  ghost predicate Shape(head: int, tail: int, num: int, cap: int)
  {
    0 < cap && 0 <= num <= cap && 0 <= tail < cap &&
    (num < cap ==> tail == 0) &&
    (if num == 0 then head == -1 else head == Slot(tail, num - 1, cap))
  }

  /** Relative-index resolution of CircularValueList.normIdx. The source of
      that class is not part of this model; this definition is an assumption:
      a non-negative index counts forward from the tail, a negative one
      backward from the head, so that -1 names the newest element, and both
      wrap by the mathematical (never negative) modulo. */
  function Resolve(head: int, tail: int, cap: int, rIdx: int): (p: int)
    requires 0 < cap
    ensures 0 <= p < cap
  {
    if rIdx >= 0 then (tail + rIdx) % cap else (head + rIdx + 1) % cap
  }

  /** The logical position (0 = oldest) that a relative index denotes in a
      ring holding `num` elements. */
  function Logical(rIdx: int, num: int): int
  {
    if rIdx >= 0 then rIdx else num + rIdx
  }

  /** `x % cap` for an `x` at most one capacity outside [0, cap). */
  lemma ModNear(x: int, cap: int)
    requires 0 < cap && -cap <= x < 2 * cap
    ensures x % cap == if x < 0 then x + cap else if x < cap then x else x - cap
  {
    if x < 0 {
      DivMod(x, cap, -1, x + cap);
    } else if x < cap {
      DivMod(x, cap, 0, x);
    } else {
      DivMod(x, cap, 1, x - cap);
    }
  }

  /** Euclidean division is determined by quotient and remainder. */
  lemma DivMod(x: int, d: int, q: int, m: int)
    requires 0 < d && x == q * d + m && 0 <= m < d
    ensures x / d == q && x % d == m
  {
    var q' := x / d;
    if q' < q {
      MulMonotone(q', q - 1, d);
    } else if q' > q {
      MulMonotone(q + 1, q', d);
    }
  }

  lemma MulMonotone(a: int, b: int, c: int)
    requires a <= b && 0 < c
    ensures a * c <= b * c
  {
  }

  /** Every relative index in [-num, num) resolves to the slot that holds the
      logical position it denotes. */
  lemma ResolveInRange(head: int, tail: int, num: int, cap: int, rIdx: int)
    requires Shape(head, tail, num, cap) && -num <= rIdx < num
    ensures 0 <= Logical(rIdx, num) < num
    ensures Resolve(head, tail, cap, rIdx) == Slot(tail, Logical(rIdx, num), cap)
  {
    if rIdx >= 0 {
      ModNear(tail + rIdx, cap);
    } else {
      ModNear(head + rIdx + 1, cap);
    }
  }

  /** Distinct logical positions live in distinct slots, and -1 resolves to
      the same slot as num - 1: the newest element. */
  lemma ResolveDistinct(head: int, tail: int, num: int, cap: int, r1: int, r2: int)
    requires Shape(head, tail, num, cap) && -num <= r1 < num && -num <= r2 < num
    ensures Resolve(head, tail, cap, r1) == Resolve(head, tail, cap, r2)
            <==> Logical(r1, num) == Logical(r2, num)
  {
    ResolveInRange(head, tail, num, cap, r1);
    ResolveInRange(head, tail, num, cap, r2);
  }

  /** Once the ring is full, the tail is the slot right after the head. */
  lemma FullTailFollowsHead(head: int, tail: int, num: int, cap: int)
    requires Shape(head, tail, num, cap) && num == cap
    ensures tail == (head + 1) % cap
  {
    ModNear(head + 1, cap);
  }

  /** A physical slot `p` read as a relative index resolves back to `p`
      exactly when the tail is 0. */
  lemma SlotAsRelativeIndex(head: int, tail: int, cap: int, p: int)
    requires 0 <= tail < cap && 0 <= p < cap
    ensures Resolve(head, tail, cap, p) == p <==> tail == 0
  {
    ModNear(tail + p, cap);
  }

  /** A full ring of capacity 4 with tail 2 and head 1: the slot 1 read as
      a relative index names logical position 1, which lives in slot 3. */
  lemma HeadSlotResolvesElsewhere()
    ensures Shape(1, 2, 4, 4) && Resolve(1, 2, 4, 1) == 3
  {
    ModNear(3, 4);
  }

  /** What one append does to the retained contents (oldest first): while
      there is room the value is appended; once full, the oldest is evicted. */
  function Pushed<T>(s: seq<T>, v: T, cap: nat): (r: seq<T>)
    requires 0 < cap && |s| <= cap
  {
    if |s| < cap then s + [v] else s[1..] + [v]
  }

  /** The retained contents after appending every element of `vs` in turn. */
  function PushAll<T>(s: seq<T>, vs: seq<T>, cap: nat): (r: seq<T>)
    requires 0 < cap && |s| <= cap
    ensures |r| <= cap
    decreases |vs|
  {
    if vs == [] then s else PushAll(Pushed(s, vs[0], cap), vs[1..], cap)
  }

  function Min(a: int, b: int): int { if a < b then a else b }

  /** The last `min(|t|, cap)` elements of `t`: what a ring of capacity `cap`
      retains of the history `t`. */
  function Newest<T>(t: seq<T>, cap: nat): seq<T>
  {
    t[|t| - Min(|t|, cap)..]
  }

  lemma PushedIsNewest<T>(s: seq<T>, v: T, cap: nat)
    requires 0 < cap && |s| <= cap
    ensures Pushed(s, v, cap) == Newest(s + [v], cap)
  {
  }

  lemma NewestTwice<T>(t: seq<T>, u: seq<T>, cap: nat)
    ensures Newest(Newest(t, cap) + u, cap) == Newest(t + u, cap)
  {
    var n := Newest(t, cap);
    var k := |t| - Min(|t|, cap);
    assert t + u == t[..k] + (n + u);
    assert (t + u)[|t + u| - Min(|t + u|, cap)..] == (n + u)[|n + u| - Min(|n + u|, cap)..];
  }

  /** A ring of capacity `cap` that starts from `s` and receives `vs` retains
      exactly the newest `cap` elements of the whole history `s + vs`. */
  lemma {:induction false} PushAllKeepsNewest<T>(s: seq<T>, vs: seq<T>, cap: nat)
    requires 0 < cap && |s| <= cap
    ensures PushAll(s, vs, cap) == Newest(s + vs, cap)
    decreases |vs|
  {
    if vs == [] {
      assert s + vs == s;
    } else {
      var s' := Pushed(s, vs[0], cap);
      PushedIsNewest(s, vs[0], cap);
      PushAllKeepsNewest(s', vs[1..], cap);
      NewestTwice(s + [vs[0]], vs[1..], cap);
      assert s + [vs[0]] + vs[1..] == s + vs;
    }
  }

  /** After N appends to an empty ring of capacity C it holds min(N, C)
      elements, and its newest element is the last one appended. */
  lemma AppendsFromEmpty<T>(vs: seq<T>, cap: nat)
    requires 0 < cap
    ensures |PushAll([], vs, cap)| == Min(|vs|, cap)
    ensures vs != [] ==> PushAll([], vs, cap)[|PushAll([], vs, cap)| - 1] == vs[|vs| - 1]
  {
    PushAllKeepsNewest([], vs, cap);
    assert [] + vs == vs;
  }

  /** Capacity 4, append 1, 2, 3, 4, 5: the ring retains 2, 3, 4, 5. */
  lemma EvictsOldest()
    ensures PushAll([], [1, 2, 3, 4, 5], 4) == [2, 3, 4, 5]
  {
    PushAllKeepsNewest([], [1, 2, 3, 4, 5], 4);
    assert [] + [1, 2, 3, 4, 5] == [1, 2, 3, 4, 5];
  }
}
