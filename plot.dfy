/** The marker index of a Plot, the bookkeeping of its sample ring that the
    markers use, and the ARGB split used to build plot paints. */
module Plots {
  import opened Ring
  import opened BooleanValues

  datatype Option<T> = None | Some(value: T)

  /** A PlotMarker: `id` stands for the marker object itself and `index` is
      the slot it is drawn at (-1: always drawn). */
  datatype Marker = Marker(id: nat, index: int)

  // ---------------------------------------------------------------------
  // Marker list specification
  // ---------------------------------------------------------------------

  /** Position of the first marker in `ms` whose index is `idx`, if any. */
  function FirstMatch(ms: seq<Marker>, idx: int): (k: Option<nat>)
    ensures k.Some? ==> k.value < |ms| && ms[k.value].index == idx &&
                        forall j :: 0 <= j < k.value ==> ms[j].index != idx
    ensures k.None? <==> forall j :: 0 <= j < |ms| ==> ms[j].index != idx
  {
    if ms == [] then None
    else if ms[0].index == idx then Some(0)
    else match FirstMatch(ms[1..], idx)
      case None => None
      case Some(k) => Some(k + 1)
  }

  /** The marker list after detaching at `idx`: the first marker whose index
      is `idx` is removed, if there is one. */
  function Detached(ms: seq<Marker>, idx: int): seq<Marker>
  {
    match FirstMatch(ms, idx)
    case None => ms
    case Some(k) => ms[..k] + ms[k + 1..]
  }

  /** The markers whose index differs from `idx`, in list order. */
  function Others(ms: seq<Marker>, idx: int): seq<Marker>
  {
    if ms == [] then []
    else if ms[0].index == idx then Others(ms[1..], idx)
    else [ms[0]] + Others(ms[1..], idx)
  }

  /** The number of markers whose index is `idx`. */
  function CountAt(ms: seq<Marker>, idx: int): nat
  {
    if ms == [] then 0
    else (if ms[0].index == idx then 1 else 0) + CountAt(ms[1..], idx)
  }

  lemma {:induction false} OthersSplit(a: seq<Marker>, b: seq<Marker>, idx: int)
    ensures Others(a + b, idx) == Others(a, idx) + Others(b, idx)
    ensures CountAt(a + b, idx) == CountAt(a, idx) + CountAt(b, idx)
  {
    if a == [] {
      assert a + b == b;
    } else {
      assert (a + b)[1..] == a[1..] + b;
      OthersSplit(a[1..], b, idx);
    }
  }

  lemma {:induction false} NoneAtIdx(ms: seq<Marker>, idx: int)
    requires forall j :: 0 <= j < |ms| ==> ms[j].index != idx
    ensures Others(ms, idx) == ms && CountAt(ms, idx) == 0
  {
    if ms != [] {
      NoneAtIdx(ms[1..], idx);
    }
  }

  /** Detaching keeps every marker at another index, in its order, and
      removes exactly one marker at `idx` when there is one. */
  lemma DetachRemovesOneAtIdx(ms: seq<Marker>, idx: int)
    ensures Others(Detached(ms, idx), idx) == Others(ms, idx)
    ensures CountAt(Detached(ms, idx), idx) ==
            if CountAt(ms, idx) == 0 then 0 else CountAt(ms, idx) - 1
    ensures |Detached(ms, idx)| == |ms| - (if CountAt(ms, idx) == 0 then 0 else 1)
  {
    match FirstMatch(ms, idx)
    case None =>
      NoneAtIdx(ms, idx);
    case Some(k) =>
      NoneAtIdx(ms[..k], idx);
      assert ms == ms[..k] + ([ms[k]] + ms[k + 1..]);
      OthersSplit(ms[..k], [ms[k]] + ms[k + 1..], idx);
      OthersSplit([ms[k]], ms[k + 1..], idx);
      OthersSplit(ms[..k], ms[k + 1..], idx);
  }

  /** The marker the lookup returns for `idx`: the first one whose index is
      `idx`. */
  function Lookup(ms: seq<Marker>, idx: int): Option<Marker>
  {
    match FirstMatch(ms, idx)
    case None => None
    case Some(k) => Some(ms[k])
  }

  /** After attaching `m` at slot `slot`, a lookup of `slot` finds a marker
      at that slot; it is `m` itself unless an earlier marker already had
      that slot. */
  lemma AttachThenLookup(ms: seq<Marker>, m: Marker, slot: int)
    ensures Lookup(ms + [m.(index := slot)], slot).Some?
    ensures Lookup(ms + [m.(index := slot)], slot).value.index == slot
    ensures CountAt(ms, slot) == 0 ==> Lookup(ms + [m.(index := slot)], slot) == Some(m.(index := slot))
  {
    var ms' := ms + [m.(index := slot)];
    assert ms'[|ms|].index == slot;
    if CountAt(ms, slot) == 0 {
      if k :| 0 <= k < |ms| && ms[k].index == slot {
        CountPositive(ms, slot, k);
      }
      assert forall j :: 0 <= j < |ms| ==> ms'[j] == ms[j];
    }
  }

  lemma {:induction false} CountPositive(ms: seq<Marker>, idx: int, k: int)
    requires 0 <= k < |ms| && ms[k].index == idx
    ensures CountAt(ms, idx) > 0
  {
    if k > 0 {
      CountPositive(ms[1..], idx, k - 1);
    }
  }

  /** Attaching at a slot and detaching at the same raw index undoes the
      attach when no earlier marker used that slot. */
  lemma AttachThenDetach(ms: seq<Marker>, m: Marker, slot: int)
    requires forall j :: 0 <= j < |ms| ==> ms[j].index != slot
    ensures Detached(ms + [m.(index := slot)], slot) == ms
  {
    var ms' := ms + [m.(index := slot)];
    assert forall j :: 0 <= j < |ms| ==> ms'[j] == ms[j];
    assert ms'[|ms|].index == slot;
    assert FirstMatch(ms', slot) == Some(|ms|);
    assert ms'[..|ms|] == ms;
  }

  /** Detach compares the raw index: after attaching at a relative index
      that resolves to another slot, detaching at that same relative index
      does not find the marker when no marker had that raw index. */
  lemma RawDetachMissesAttached(ms: seq<Marker>, m: Marker, rIdx: int, slot: int)
    requires rIdx != slot
    requires forall j :: 0 <= j < |ms| ==> ms[j].index != rIdx
    ensures Detached(ms + [m.(index := slot)], rIdx) == ms + [m.(index := slot)]
  {
    var ms' := ms + [m.(index := slot)];
    assert forall j :: 0 <= j < |ms'| ==> ms'[j].index != rIdx by {
      forall j | 0 <= j < |ms'| ensures ms'[j].index != rIdx {
        if j < |ms| { assert ms'[j] == ms[j]; }
      }
    }
  }

  // ---------------------------------------------------------------------
  // The sample ring of a Plot
  // ---------------------------------------------------------------------

  /** Plot.values. FloatValueList is not part of this model: only the
      CircularValueList bookkeeping that Plot reads (its head) and resets
      (clear) is kept, with the same shape invariant as BooleanValueList. */
  class FloatValueList {
    const sizeMax: int
    const maintainMinMax: bool
    var head: int
    var tail: int
    var num: int

    ghost predicate Valid()
      reads this
    {
      Shape(head, tail, num, sizeMax)
    }

    constructor (cacheSize: int, maintainMinMax: bool)
      requires 0 < cacheSize
      ensures Valid() && sizeMax == cacheSize && num == 0
      ensures this.maintainMinMax == maintainMinMax
    {
      sizeMax := cacheSize;
      this.maintainMinMax := maintainMinMax;
      head, tail, num := -1, 0, 0;
    }

    method Clear()
      requires Valid()
      modifies this
      ensures Valid() && num == 0 && head == -1 && tail == 0
    {
      num, head, tail := 0, -1, 0;
    }
  }

  // ---------------------------------------------------------------------
  // Plot
  // ---------------------------------------------------------------------

  class Plot {
    /** The sample ring (only its bookkeeping, see FloatValueList). */
    const values: FloatValueList
    /** One flag per slot: whether drawing has to look for markers there. */
    const inspectValues: BooleanValueList
    /** The active markers, in the order they were attached. */
    var markers: seq<Marker>
    /** The number of indices the viewport should show (-1: all). */
    var desiredViewportIdxNum: int

    ghost predicate Valid()
      reads this, values, inspectValues, inspectValues.values
    {
      values.Valid() && inspectValues.Valid() && values.sizeMax == inspectValues.sizeMax
    }

    /** Titles, paints, the file name and the lock are not modelled. */
    constructor (maxCache: int, maintainMinMax: bool)
      requires 0 < maxCache
      ensures Valid() && fresh(values) && fresh(inspectValues) && fresh(inspectValues.values)
      ensures markers == [] && desiredViewportIdxNum == -1
      ensures values.num == 0 && inspectValues.Contents == []
      ensures values.sizeMax == maxCache && inspectValues.sizeMax == maxCache
      ensures values.maintainMinMax == maintainMinMax && !inspectValues.maintainMinMax
      ensures forall k :: 0 <= k < maxCache ==> !inspectValues.values[k]
    {
      values := new FloatValueList(maxCache, maintainMinMax);
      inspectValues := new BooleanValueList(maxCache, false);
      markers := [];
      desiredViewportIdxNum := -1;
    }

    /** The head position of the sample ring: its newest slot, or -1 while it
        is empty. */
    function GetValueHead(): (h: int)
      reads this, values
      requires values.Valid()
      ensures h == -1 <==> values.num == 0
      ensures values.num > 0 ==> h == Slot(values.tail, values.num - 1, values.sizeMax)
    {
      values.head
    }

    /** Attaches `marker` at `entryIdx` (appended to the list, its index set
        to the slot `entryIdx` resolves to, and that slot's inspect flag set),
        or, for None, detaches the first marker whose stored index equals the
        raw `entryIdx` and clears the inspect flag of the slot `entryIdx`
        resolves to, whether or not a marker was removed. */
    method SetMarker(entryIdx: int, marker: Option<Marker>)
      requires Valid()
      modifies this, inspectValues, inspectValues.values
      ensures Valid()
      ensures marker.None? ==> markers == Detached(old(markers), entryIdx)
      ensures marker.Some? ==>
                markers == old(markers) + [marker.value.(index := inspectValues.NormIdx(entryIdx))]
      // the stored index is a resolved slot, so attaching never makes a
      // marker with index -1, not even for entryIdx == -1
      ensures marker.Some? ==> markers[|markers| - 1].index != -1
      ensures inspectValues.values[..] ==
                old(inspectValues.values[..])[inspectValues.NormIdx(entryIdx) := marker.Some?]
      ensures inspectValues.head == old(inspectValues.head) && inspectValues.tail == old(inspectValues.tail)
      ensures inspectValues.num == old(inspectValues.num)
      ensures desiredViewportIdxNum == old(desiredViewportIdxNum)
    {
      match marker {
        case None =>
          var n := |markers|;
          var i := 0;
          while i < n
            invariant 0 <= i <= n == |markers| && markers == old(markers)
            invariant forall j :: 0 <= j < i ==> markers[j].index != entryIdx
          {
            if markers[i].index == entryIdx {
              markers := markers[..i] + markers[i + 1..];
              break;
            }
            i := i + 1;
          }
          var _ := inspectValues.Set(entryIdx, false);
        case Some(m) =>
          var _ := inspectValues.Set(entryIdx, true);
          markers := markers + [m.(index := inspectValues.NormIdx(entryIdx))];
      }
    }

    /** Sets (or, for None, removes) a marker at the current head of the
        sample ring. */
    method SetMarkerAtHead(marker: Option<Marker>)
      requires Valid()
      modifies this, inspectValues, inspectValues.values
      ensures Valid()
      ensures marker.None? ==> markers == Detached(old(markers), values.head)
      ensures marker.Some? ==>
                markers == old(markers) + [marker.value.(index := inspectValues.NormIdx(values.head))]
      ensures inspectValues.values[..] ==
                old(inspectValues.values[..])[inspectValues.NormIdx(values.head) := marker.Some?]
      ensures inspectValues.head == old(inspectValues.head) && inspectValues.tail == old(inspectValues.tail)
      ensures inspectValues.num == old(inspectValues.num) && values.head == old(values.head)
      ensures desiredViewportIdxNum == old(desiredViewportIdxNum)
      // the physical head slot is passed as a relative index: the marker
      // lands on that slot exactly when the inspect ring's tail is 0
      ensures marker.Some? && values.num > 0 ==>
                (markers[|markers| - 1].index == values.head <==> inspectValues.tail == 0)
    {
      var h := GetValueHead();
      if h >= 0 {
        SlotAsRelativeIndex(inspectValues.head, inspectValues.tail, inspectValues.sizeMax, h);
      }
      SetMarker(h, marker);
    }

    /** The first marker in list order whose stored index is `entryIdx`, or
        None when there is none. */
    method GetMarker(entryIdx: int) returns (r: Option<Marker>)
      ensures r.None? <==> forall j :: 0 <= j < |markers| ==> markers[j].index != entryIdx
      ensures r.Some? ==> exists k :: 0 <= k < |markers| && markers[k] == r.value &&
                            r.value.index == entryIdx &&
                            forall j :: 0 <= j < k ==> markers[j].index != entryIdx
      ensures r == Lookup(markers, entryIdx)
    {
      var n := |markers|;
      var i := 0;
      while i < n
        invariant 0 <= i <= n == |markers|
        invariant forall j :: 0 <= j < i ==> markers[j].index != entryIdx
      {
        var mark := markers[i];
        if mark.index == entryIdx {
          return Some(mark);
        }
        i := i + 1;
      }
      return None;
    }

    /** Sets the number of indices the viewport should show. */
    method SetViewport(numIdx: int)
      modifies this
      ensures desiredViewportIdxNum == numIdx && markers == old(markers)
    {
      desiredViewportIdxNum := numIdx;
    }

    /** Clears the sample ring only: markers and inspect flags stay. */
    method Clear()
      requires Valid()
      modifies values
      ensures Valid()
      ensures values.num == 0 && values.head == -1 && values.tail == 0
      ensures unchanged(this, inspectValues, inspectValues.values)
    {
      values.Clear();
    }
  }

  // ---------------------------------------------------------------------
  // Paint colours
  // ---------------------------------------------------------------------

  /** A colour as the four channel values passed to Paint.setARGB. */
  datatype Argb = Argb(a: int, r: int, g: int, b: int)

  /** The settings generatePlotPaint gives a Paint; the Paint object itself
      belongs to the drawing backend. */
  datatype PlotPaint = PlotPaint(strokeWidth: real, color: Argb, antiAlias: bool)

  predicate IsInt32(x: int)
  {
    -0x8000_0000 <= x < 0x8000_0000
  }

  predicate IsChannel(x: int)
  {
    0 <= x < 0x100
  }

  /** The four bytes of a Java int colour: `(argb >> s) & 0xFF`. Java's `>>`
      on an int is floor division by 2^s and `& 0xFF` is the non-negative
      remainder modulo 256, which Dafny's `/` and `%` compute for a positive
      divisor. */
  function Split(argb: int): Argb
  {
    Argb((argb / 0x100_0000) % 0x100, (argb / 0x1_0000) % 0x100, (argb / 0x100) % 0x100, argb % 0x100)
  }

  /** `a << 24 | r << 16 | g << 8 | b` on Java ints: the shifted channels
      occupy disjoint bits, so the OR is their sum, wrapped to 32 bits. */
  function Pack(c: Argb): (x: int)
    requires IsChannel(c.a) && IsChannel(c.r) && IsChannel(c.g) && IsChannel(c.b)
    ensures IsInt32(x)
  {
    var u := c.a * 0x100_0000 + c.r * 0x1_0000 + c.g * 0x100 + c.b;
    if u < 0x8000_0000 then u else u - 0x1_0000_0000
  }

  /** generatePlotPaint(width, a, r, g, b). */
  function GeneratePlotPaintOf(width: real, a: int, r: int, g: int, b: int): (p: PlotPaint)
    ensures p.color == Argb(a, r, g, b) && p.strokeWidth == width && p.antiAlias
  {
    PlotPaint(width, Argb(a, r, g, b), true)
  }

  /** generatePlotPaint(width, argb): each channel is a byte of `argb`, and
      the channels reassemble to `argb`. */
  function GeneratePlotPaint(width: real, argb: int): (p: PlotPaint)
    requires IsInt32(argb)
    ensures IsChannel(p.color.a) && IsChannel(p.color.r) && IsChannel(p.color.g) && IsChannel(p.color.b)
    ensures Pack(p.color) == argb
    ensures p.strokeWidth == width && p.antiAlias
  {
    var c := Split(argb);
    PackSplit(argb);
    GeneratePlotPaintOf(width, c.a, c.r, c.g, c.b)
  }

  /** Splitting a Java int into bytes and packing them again is the
      identity. */
  lemma PackSplit(argb: int)
    requires IsInt32(argb)
    ensures IsChannel(Split(argb).a) && IsChannel(Split(argb).r)
    ensures IsChannel(Split(argb).g) && IsChannel(Split(argb).b)
    ensures Pack(Split(argb)) == argb
  {
    var u := if argb < 0 then argb + 0x1_0000_0000 else argb;
    SplitUnsigned(argb, u);
  }

  /** Packing four bytes and splitting the result gives them back. */
  lemma SplitPack(c: Argb)
    requires IsChannel(c.a) && IsChannel(c.r) && IsChannel(c.g) && IsChannel(c.b)
    ensures Split(Pack(c)) == c
  {
    var u := c.a * 0x100_0000 + c.r * 0x1_0000 + c.g * 0x100 + c.b;
    SplitUnsigned(Pack(c), u);
    ChannelsOfSum(c, u);
  }

  /** A Java int and its unsigned 32-bit reading have the same bytes. */
  lemma SplitUnsigned(x: int, u: int)
    requires IsInt32(x) && (u == x || u == x + 0x1_0000_0000) && 0 <= u < 0x1_0000_0000
    ensures Split(x) == Split(u)
    ensures u == Split(u).a * 0x100_0000 + Split(u).r * 0x1_0000 + Split(u).g * 0x100 + Split(u).b
  {
    var q1, b := u / 0x100, u % 0x100;
    var q2, g := q1 / 0x100, q1 % 0x100;
    var q3, r := q2 / 0x100, q2 % 0x100;
    DivMod(u, 0x1_0000, q2, g * 0x100 + b);
    DivMod(u, 0x100_0000, q3, r * 0x1_0000 + g * 0x100 + b);
    DivMod(q3, 0x100, 0, q3);
    if u != x {
      DivMod(x, 0x100, q1 - 0x100_0000, b);
      DivMod(x, 0x1_0000, q2 - 0x1_0000, g * 0x100 + b);
      DivMod(x, 0x100_0000, q3 - 0x100, r * 0x1_0000 + g * 0x100 + b);
      DivMod(q1 - 0x100_0000, 0x100, q2 - 0x1_0000, g);
      DivMod(q2 - 0x1_0000, 0x100, q3 - 0x100, r);
      DivMod(q3 - 0x100, 0x100, -1, q3);
    }
  }

  lemma ChannelsOfSum(c: Argb, u: int)
    requires IsChannel(c.a) && IsChannel(c.r) && IsChannel(c.g) && IsChannel(c.b)
    requires u == c.a * 0x100_0000 + c.r * 0x1_0000 + c.g * 0x100 + c.b
    ensures Split(u) == c
  {
    DivMod(u, 0x100, c.a * 0x1_0000 + c.r * 0x100 + c.g, c.b);
    DivMod(u, 0x1_0000, c.a * 0x100 + c.r, c.g * 0x100 + c.b);
    DivMod(u, 0x100_0000, c.a, c.r * 0x1_0000 + c.g * 0x100 + c.b);
    DivMod(c.a * 0x1_0000 + c.r * 0x100 + c.g, 0x100, c.a * 0x100 + c.r, c.g);
    DivMod(c.a * 0x100 + c.r, 0x100, c.a, c.r);
    DivMod(c.a, 0x100, 0, c.a);
  }
}
