/** BooleanValueList: a fixed-capacity circular buffer of booleans that
    overwrites its oldest entry once it is full. The bookkeeping fields head,
    tail, num and sizeMax come from CircularValueList; the ghost field Contents
    is the retained sequence, oldest first. */
module BooleanValues {
  import opened Ring

  class BooleanValueList {
    /** Capacity of the ring (fixed at construction). */
    const sizeMax: int
    /** The raw values, one per physical slot. */
    const values: array<bool>
    /** Newest slot, or -1 while the list is empty. */
    var head: int
    /** Oldest slot. */
    var tail: int
    /** Number of retained entries. */
    var num: int
    /** Whether min/max are maintained; they are never computed for booleans. */
    const maintainMinMax: bool

    /** The retained entries, oldest first. */
    ghost var Contents: seq<bool>

    ghost predicate Valid()
      reads this, values
    {
      values.Length == sizeMax &&
      Shape(head, tail, num, sizeMax) &&
      |Contents| == num &&
      forall i :: 0 <= i < num ==> Contents[i] == values[Slot(tail, i, sizeMax)]
    }

    /** The constructor of CircularValueList is not part of this model; the
        list is assumed to start in the state that clear() produces. */
    constructor (cacheSize: int, maintainMinMax: bool)
      requires 0 < cacheSize
      ensures Valid() && fresh(values)
      ensures sizeMax == cacheSize && Contents == [] && this.maintainMinMax == maintainMinMax
      ensures forall k :: 0 <= k < sizeMax ==> !values[k]
    {
      sizeMax := cacheSize;
      values := new bool[cacheSize](_ => false);
      head, tail, num := -1, 0, 0;
      this.maintainMinMax := maintainMinMax;
      Contents := [];
    }

    /** CircularValueList.normIdx (assumed definition, see Ring.Resolve). */
    function NormIdx(rIdx: int): (p: int)
      reads this
      requires 0 < sizeMax
      ensures 0 <= p < sizeMax
    {
      Resolve(head, tail, sizeMax, rIdx)
    }

    /** A relative index in [-num, num) resolves to the slot of the retained
        entry it names; two such indices share a slot exactly when they name
        the same entry. */
    lemma NormIdxResolves(r1: int, r2: int)
      requires Valid() && -num <= r1 < num && -num <= r2 < num
      ensures 0 <= Logical(r1, num) < num
      ensures values[NormIdx(r1)] == Contents[Logical(r1, num)]
      ensures NormIdx(r1) == NormIdx(r2) <==> Logical(r1, num) == Logical(r2, num)
    {
      ResolveInRange(head, tail, num, sizeMax, r1);
      ResolveDistinct(head, tail, num, sizeMax, r1, r2);
    }

    /** Adds an entry, overwriting the eldest one when the ring is full, and
        returns the new head position. */
    method Add(newValue: bool) returns (h: int)
      requires Valid()
      modifies this, values
      ensures Valid()
      ensures Contents == Pushed(old(Contents), newValue, sizeMax)
      ensures h == head == (old(head) + 1) % sizeMax
      ensures values[head] == newValue
      ensures forall k :: 0 <= k < sizeMax && k != head ==> values[k] == old(values[k])
      ensures num == if old(num) < sizeMax then old(num) + 1 else sizeMax
      ensures old(num) < sizeMax ==> tail == old(tail)
      ensures old(num) == sizeMax ==> tail == (old(tail) + 1) % sizeMax
      ensures num == sizeMax ==> tail == (head + 1) % sizeMax
    {
      ModNear(head + 1, sizeMax);
      ModNear(tail + 1, sizeMax);
      head := head + 1;
      if head == sizeMax {
        head := 0;
      }

      values[head] := newValue;

      if num < sizeMax {
        num := num + 1;
      } else {
        // once full, the tail moves with the head
        tail := tail + 1;
        if tail == sizeMax {
          tail := 0;
        }
      }

      Contents := Pushed(Contents, newValue, sizeMax);
      h := head;
      if num == sizeMax {
        FullTailFollowsHead(head, tail, num, sizeMax);
      }
    }

    /** List.add(Boolean): adds the entry and reports success, which it always
        does since the new head is never -1. */
    method AddObject(value: bool) returns (added: bool)
      requires Valid()
      modifies this, values
      ensures Valid()
      ensures Contents == Pushed(old(Contents), value, sizeMax)
      ensures head == (old(head) + 1) % sizeMax && num == Min(old(num) + 1, sizeMax)
      ensures values[head] == value
      ensures forall k :: 0 <= k < sizeMax && k != head ==> values[k] == old(values[k])
      ensures old(num) < sizeMax ==> tail == old(tail)
      ensures old(num) == sizeMax ==> tail == (old(tail) + 1) % sizeMax
      ensures added
    {
      var h := Add(value);
      added := h != -1;
    }

    /** Resets the occupancy without touching the stored values
        (CircularValueList.clear, assumed). */
    method Clear()
      requires Valid()
      modifies this
      ensures Valid()
      ensures Contents == [] && num == 0 && head == -1 && tail == 0
    {
      num, head, tail := 0, -1, 0;
      Contents := [];
    }

    /** Replaces the contents by `sourceList`, stored from slot 0 on. The
        source asserts the size bound only after writing num, so it is a
        precondition here. */
    method Copy(sourceList: seq<bool>)
      requires Valid() && |sourceList| <= sizeMax
      modifies this, values
      ensures Valid()
      ensures Contents == sourceList
      ensures num == |sourceList| && head == |sourceList| - 1 && tail == 0
      ensures values[..|sourceList|] == sourceList
      ensures values[|sourceList|..] == old(values[|sourceList|..])
    {
      num := |sourceList|;

      head := -1;
      var i := 0;
      while i < |sourceList|
        invariant 0 <= i <= |sourceList| && head == i - 1
        invariant num == |sourceList|
        invariant values[..i] == sourceList[..i]
        invariant forall k :: i <= k < sizeMax ==> values[k] == old(values[k])
      {
        head := head + 1;
        values[head] := sourceList[i];
        i := i + 1;
      }

      tail := 0;
      Contents := sourceList;

      if maintainMinMax {
        FindMinMax();
      }
    }

    /** Min/max maintenance is empty for booleans: these change nothing. */
    method FindMax()
      ensures unchanged(this, values)
    {
    }

    method FindMin()
      ensures unchanged(this, values)
    {
    }

    method FindMinMax()
      ensures unchanged(this, values)
    {
    }

    /** The newest entry, or false while the list is empty. */
    method GetHeadValue() returns (v: bool)
      requires Valid()
      ensures v == if num == 0 then false else Contents[num - 1]
    {
      if head < 0 {
        return false;
      }
      return values[head];
    }

    /** The entry a relative index names, or false while the list is empty. */
    method GetIndirect(rIdx: int) returns (v: bool)
      requires Valid()
      ensures num == 0 ==> !v
      ensures num != 0 ==> v == values[NormIdx(rIdx)]
      ensures -num <= rIdx < num ==> v == Contents[Logical(rIdx, num)]
    {
      if num == 0 {
        return false;
      }
      if -num <= rIdx < num {
        NormIdxResolves(rIdx, rIdx);
      }
      return values[NormIdx(rIdx)];
    }

    /** List.get: the same as GetIndirect. */
    method Get(location: int) returns (v: bool)
      requires Valid()
      ensures num == 0 ==> !v
      ensures num != 0 ==> v == values[NormIdx(location)]
      ensures -num <= location < num ==> v == Contents[Logical(location, num)]
    {
      v := GetIndirect(location);
    }

    /** Writes `value` into the slot `location` resolves to and returns what
        that slot held. Nothing else changes; a write into a retained slot
        replaces exactly that entry of Contents. */
    method Set(location: int, value: bool) returns (prev: bool)
      requires Valid()
      modifies this, values
      ensures Valid()
      ensures prev == old(values[NormIdx(location)])
      ensures values[..] == old(values[..])[NormIdx(location) := value]
      ensures head == old(head) && tail == old(tail) && num == old(num)
      ensures -num <= location < num ==> Contents == old(Contents)[Logical(location, num) := value]
    {
      var idx := NormIdx(location);
      prev := values[idx];
      values[idx] := value;
      RewriteSlot(idx, value, location);
    }

    /** List.add(int, Boolean): the same write as Set, without returning the
        previous value. */
    method AddAt(location: int, value: bool)
      requires Valid()
      modifies this, values
      ensures Valid()
      ensures values[..] == old(values[..])[NormIdx(location) := value]
      ensures head == old(head) && tail == old(tail) && num == old(num)
      ensures -num <= location < num ==> Contents == old(Contents)[Logical(location, num) := value]
    {
      values[NormIdx(location)] := value;
      RewriteSlot(NormIdx(location), value, location);
    }

    /** Brings Contents up to date after `value` was written into slot
        `idx`, which `location` resolves to. */
    ghost method RewriteSlot(idx: int, value: bool, location: int)
      requires 0 <= idx < sizeMax == values.Length && idx == NormIdx(location)
      requires Shape(head, tail, num, sizeMax) && |Contents| == num
      requires values[idx] == value
      requires forall i :: 0 <= i < num && Slot(tail, i, sizeMax) != idx ==>
                 Contents[i] == values[Slot(tail, i, sizeMax)]
      modifies this
      ensures Valid()
      ensures head == old(head) && tail == old(tail) && num == old(num)
      ensures -num <= location < num ==> Contents == old(Contents)[Logical(location, num) := value]
    {
      var c, t, n := Contents, tail, sizeMax;
      Contents := seq(num, i requires 0 <= i < |c| => if Slot(t, i, n) == idx then value else c[i]);
      if -num <= location < num {
        ResolveInRange(head, tail, num, sizeMax, location);
        var k := Logical(location, num);
        forall i | 0 <= i < num
          ensures Contents[i] == c[k := value][i]
        {
          if i != k {
            ResolveDistinct(head, tail, num, sizeMax, location, i);
          }
        }
      }
    }

    /** add(long) and add(float) are unimplemented for booleans: they return
        0 and change nothing. */
    method AddLong(newValue: int) returns (h: int)
      ensures h == 0
    {
      return 0;
    }

    method AddFloat(newValue: real) returns (h: int)
      ensures h == 0
    {
      // Java's (long) cast truncates toward zero
      var truncated := if newValue >= 0.0 then newValue.Floor else -((-newValue).Floor);
      h := AddLong(truncated);
    }
  }
}
