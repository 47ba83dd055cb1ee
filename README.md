# PlotView sample storage and marker index, in Dafny

This project models two sequential pieces of PlotView's sample-storage layer.

- **`BooleanValueList`** is a fixed-capacity circular buffer of booleans.
  `add` overwrites the oldest entry once the buffer is full. `copy` bulk-loads it.
  Reads and writes go through relative indices resolved by `normIdx`, where -1 is the newest entry.
  The model is a class over an `array<bool>` with the fields `head`, `tail`, `num` and `sizeMax`.
  A ghost field `Contents` holds the retained entries, oldest first.
  The invariant `Valid()` ties `Contents` to the array.
  The pure index arithmetic lives in module `Ring`: slot of a logical position, index resolution, and the contents after one or many appends.
- **The marker index of `Plot`** is an ordered list of markers kept beside the boolean `inspectValues` ring.
  `setMarker` attaches a marker (append, set the inspect flag) or detaches one (remove the first match, clear the flag).
  `getMarker` returns the first match.
  The model is class `Plots.Plot`, with the marker list as a `seq<Marker>` and `inspectValues` as a `BooleanValueList`.
  The same module holds the ARGB byte split of `generatePlotPaint(float, int)`.

Files:
- `ring.dfy`: module `Ring`, the index arithmetic.
- `boolean_value_list.dfy`: module `BooleanValues`, the ring-buffer class.
- `plot.dfy`: module `Plots`, the markers, `Plot` and the colour split.

`CircularValueList`, the superclass that declares `head`, `tail`, `num`, `sizeMax`, `normIdx` and `clear`, is not part of this model.
Its behaviour is assumed and written out explicitly:
- `clear` sets `num = 0`, `head = -1`, `tail = 0`. A new list starts in that state.
- `normIdx(r)` is `(tail + r) mod sizeMax` for `r >= 0`.
- `normIdx(r)` is `(head + r + 1) mod sizeMax` for `r < 0`, so -1 names the newest entry.
- `mod` is the mathematical modulo, whose result is never negative.

`FloatValueList` (the type of `Plot.values`) is not part of this model either.
`Plots.FloatValueList` keeps only the bookkeeping that `Plot` reads (`head`) and resets (`clear`).

In two places the model follows the code where a reader might expect otherwise:
- Detaching a marker clears the inspect flag unconditionally, even when another marker still targets that slot.
- `copy` with too long a source writes `num` before its assertion fails. It is modelled as a precondition, not as a failure that leaves the state unchanged.

Two more behaviours of the marker code are stated and proved, under the assumed `normIdx`:
- Attaching never creates a global marker. The `setMarker` documentation says index -1 makes a marker that is always drawn, and `drawGlobalMarks` draws only markers whose index is -1. But attach stores `normIdx(entryIdx)`, which lies in `[0, sizeMax)`, so even `setMarker(-1, m)` stores a real slot (`Plots.Plot.SetMarker`).
- `setMarker(marker)` passes the sample ring's head, a physical slot, as a relative index. The marker lands on that slot only while the inspect ring's tail is 0. Once the ring has wrapped, it lands elsewhere: with capacity 4, tail 2 and head 1, the head slot 1 resolves to slot 3 (`Plots.Plot.SetMarkerAtHead`, `Ring.SlotAsRelativeIndex`, `Ring.HeadSlotResolvesElsewhere`).

## Model

| member | source | states |
|---|---|---|
| `BooleanValues.BooleanValueList.constructor` | de/fau/mad/plotview/BooleanValueList.java:42-45 | a new list with capacity `cacheSize` is empty, its array has `cacheSize` slots and every slot holds false, as a new Java `boolean[]` does; the min/max flag is fixed at construction |
| `BooleanValues.BooleanValueList.NormIdx` | de/fau/mad/plotview/BooleanValueList.java:145 | every relative index resolves to a slot in `[0, sizeMax)` |
| `BooleanValues.BooleanValueList.NormIdxResolves` | de/fau/mad/plotview/BooleanValueList.java:133-146 | a relative index in `[-num, num)` resolves to the slot holding the entry it names; two such indices share a slot exactly when they name the same entry |
| `BooleanValues.BooleanValueList.Add` | de/fau/mad/plotview/BooleanValueList.java:53-70 | head advances by one modulo `sizeMax` and is returned; the new head slot holds the value and no other slot changes; `num` grows until it reaches `sizeMax`; tail stays put while filling and advances modulo `sizeMax` once full, so that `tail == (head+1) % sizeMax`; the contents gain the value at the newest end and lose the oldest once full |
| `BooleanValues.BooleanValueList.AddObject` | de/fau/mad/plotview/BooleanValueList.java:331-333 | `add(Boolean)` performs the same append as `add(boolean)`: the new value lands in the next slot after the old head, every other slot keeps its value, the tail moves only when the ring was full, and it always reports success |
| `BooleanValues.BooleanValueList.Clear` | de/fau/mad/plotview/BooleanValueList.java:77-79 | the list becomes empty: `num == 0`, `head == -1`, `tail == 0` |
| `BooleanValues.BooleanValueList.Copy` | de/fau/mad/plotview/BooleanValueList.java:86-101 | for a source no longer than `sizeMax`: contents equal the source, `tail` is 0, `head` is the source length minus one, `num` is the source length, slot `i` holds `src[i]` and slots past the source keep their values |
| `BooleanValues.BooleanValueList.FindMax` | de/fau/mad/plotview/BooleanValueList.java:106-108 | changes nothing |
| `BooleanValues.BooleanValueList.FindMin` | de/fau/mad/plotview/BooleanValueList.java:113-115 | changes nothing |
| `BooleanValues.BooleanValueList.FindMinMax` | de/fau/mad/plotview/BooleanValueList.java:120-122 | changes nothing, so `maintainMinMax` has no effect on `Copy` |
| `BooleanValues.BooleanValueList.GetHeadValue` | de/fau/mad/plotview/BooleanValueList.java:127-131 | the newest retained entry, or false when the list is empty |
| `BooleanValues.BooleanValueList.GetIndirect` | de/fau/mad/plotview/BooleanValueList.java:140-146 | false on an empty list; otherwise the value in the slot the index resolves to, which for an index in `[-num, num)` is the retained entry it names |
| `BooleanValues.BooleanValueList.Get` | de/fau/mad/plotview/BooleanValueList.java:202-204 | the same result as `GetIndirect` |
| `BooleanValues.BooleanValueList.Set` | de/fau/mad/plotview/BooleanValueList.java:292-297 | returns the previous value of the resolved slot and writes the new one there; every other slot and `head`, `tail`, `num` are unchanged; for an index in `[-num, num)` exactly the named entry of the contents is replaced |
| `BooleanValues.BooleanValueList.AddAt` | de/fau/mad/plotview/BooleanValueList.java:153-155 | the same write as `Set`, without a result |
| `BooleanValues.BooleanValueList.AddLong` | de/fau/mad/plotview/BooleanValueList.java:351-354 | returns 0 and changes nothing |
| `BooleanValues.BooleanValueList.AddFloat` | de/fau/mad/plotview/BooleanValueList.java:341-343 | returns 0 and changes nothing |
| `Ring.ResolveInRange` | de/fau/mad/plotview/BooleanValueList.java:140-146 | under the ring invariant, a relative index in `[-num, num)` resolves to the slot of logical position `r` (for `r >= 0`) or `num + r` (for `r < 0`) |
| `Ring.ResolveDistinct` | de/fau/mad/plotview/BooleanValueList.java:292-297 | two relative indices in `[-num, num)` resolve to the same slot exactly when they name the same entry; in particular -1 and `num-1` both name the newest entry |
| `Ring.FullTailFollowsHead` | de/fau/mad/plotview/BooleanValueList.java:62-67 | once the ring is full, `tail == (head+1) % sizeMax` |
| `Ring.PushAllKeepsNewest` | de/fau/mad/plotview/BooleanValueList.java:53-70 | a ring that receives a sequence of appends retains exactly the newest `sizeMax` elements of the whole history, in order |
| `Ring.AppendsFromEmpty` | de/fau/mad/plotview/BooleanValueList.java:60-61 | after N appends to an empty ring, `num == min(N, sizeMax)` and the newest entry is the last value appended |
| `Ring.EvictsOldest` | de/fau/mad/plotview/BooleanValueList.java:62-67 | capacity 4, appending 1 to 5 retains 2, 3, 4, 5 |
| `Ring.SlotAsRelativeIndex` | de/fau/mad/plotview/Plot.java:745-747 | a physical slot passed as a relative index resolves back to itself exactly when the ring's tail is 0 |
| `Ring.HeadSlotResolvesElsewhere` | de/fau/mad/plotview/Plot.java:745-747 | a full ring of capacity 4 with tail 2 and head 1 is a valid ring state, and there the head slot 1, read as a relative index, resolves to slot 3 |
| `Ring.Slot` | de/fau/mad/plotview/BooleanValueList.java:54-56 | the slot of a logical position wraps once and stays within `[0, sizeMax)` |
| `Plots.FirstMatch` | de/fau/mad/plotview/Plot.java:790-799 | finds the first marker whose index is `idx`: it matches and no earlier one does; none is found exactly when no marker has that index |
| `Plots.DetachRemovesOneAtIdx` | de/fau/mad/plotview/Plot.java:759-768 | detaching removes exactly one marker with that raw index when there is one, and nothing otherwise; markers at other indices all stay, in their order |
| `Plots.AttachThenLookup` | de/fau/mad/plotview/Plot.java:770-774 | after attaching at a slot, a lookup of that slot finds a marker at that slot, and it is the new marker unless an earlier one had the slot |
| `Plots.AttachThenDetach` | de/fau/mad/plotview/Plot.java:759-774 | attaching at a slot and detaching at the same raw index restores the marker list when no earlier marker had that slot |
| `Plots.RawDetachMissesAttached` | de/fau/mad/plotview/Plot.java:764-772 | attach stores the resolved slot but detach compares the raw index, so detaching at a relative index that resolves elsewhere leaves the attached marker in the list |
| `Plots.FloatValueList.Clear` | de/fau/mad/plotview/Plot.java:981 | the sample ring becomes empty: `num == 0`, `head == -1`, `tail == 0` |
| `Plots.Plot.constructor` | de/fau/mad/plotview/Plot.java:599-618 | a new plot has no markers, an empty sample ring and an empty inspect ring, both of capacity `maxCache`; the sample ring maintains min/max as asked and the inspect ring does not; every inspect flag is false; no desired viewport size (-1) |
| `Plots.Plot.GetValueHead` | de/fau/mad/plotview/Plot.java:976-978 | the newest slot of the sample ring, or -1 exactly when it is empty |
| `Plots.Plot.SetMarker` | de/fau/mad/plotview/Plot.java:757-777 | attach appends the marker with its index set to the resolved slot and sets that slot's inspect flag; detach removes the first marker whose index equals the raw argument and clears the resolved slot's flag unconditionally; the inspect ring's bookkeeping and the viewport setting are unchanged; an attached marker's index is never -1, so attaching never makes a global marker |
| `Plots.Plot.SetMarkerAtHead` | de/fau/mad/plotview/Plot.java:745-747 | the same as `SetMarker` at the sample ring's head, read as a relative index of the inspect ring; the viewport setting is unchanged; with a non-empty sample ring, the attached marker's index is the sample head exactly when the inspect ring's tail is 0 |
| `Plots.Plot.GetMarker` | de/fau/mad/plotview/Plot.java:790-799 | the first marker in list order whose index equals the argument, or none exactly when no marker has that index; the list is not changed |
| `Plots.Plot.SetViewport` | de/fau/mad/plotview/Plot.java:806-808 | stores the desired number of indices and changes nothing else |
| `Plots.Plot.Clear` | de/fau/mad/plotview/Plot.java:980-982 | empties the sample ring; markers and inspect flags are untouched |
| `Plots.Pack` | de/fau/mad/plotview/Plot.java:707 | reassembling four bytes as `a<<24`, `r<<16`, `g<<8` and `b` combined by bitwise OR gives a 32-bit int |
| `Plots.GeneratePlotPaintOf` | de/fau/mad/plotview/Plot.java:695-704 | the paint's colour is the four channels given, its stroke width is the one given, and anti-aliasing is on |
| `Plots.GeneratePlotPaint` | de/fau/mad/plotview/Plot.java:706-708 | each colour channel is in `[0, 255]`, the channels reassemble to `argb`, and the stroke width is the one given |
| `Plots.PackSplit` | de/fau/mad/plotview/Plot.java:707 | splitting a 32-bit int into bytes 24-31, 16-23, 8-15 and 0-7 and reassembling them gives it back |
| `Plots.SplitPack` | de/fau/mad/plotview/Plot.java:707 | four bytes reassembled and split again give the same four bytes |

## Left out

- Drawing: `drawXAxis`, `drawYAxis`, `drawGlobalMarks`, `PlotMarkerDefault.onDraw` and `formatAxisText` need a canvas and floating-point coordinates.
- The `m_dataLock` lock is concurrency. `SetMarker` is one sequential step, and the scratch fields `tIdx`, `tNum` and `tMark` are locals.
- `getViewport` is abstract and its implementation is not part of this model.
- Min/max maintenance belongs to `FloatValueList`, which is not part of this model; the boolean versions are empty.
- `FloatValueList` sample storage: only the ring bookkeeping of `Plot.values` is modelled.
- Plot plumbing: the `Time`-based file name, the random `generatePlotPaint()`, the Paint setters, `setAxis`, the listener callbacks and `saveToFile`/`loadFromFile` (abstract I/O).
- The `List` conformance stubs of `BooleanValueList` that throw `UnsupportedOperationException` or return false.
- `SamplingPlot`, `AxisPaint` and `Plot3D` are outside the modelled core.
- Markers are values `(id, index)`. Attaching the same `PlotMarker` object twice shares its `m_index` in Java; that aliasing is not modelled, and neither is `marker.m_plot = this`.
- Integers are unbounded. Java `int` overflow in `head + 1` or in `normIdx` of an index near the int limits is not modelled.
- `BooleanValues.BooleanValueList.AddFloat`: the argument is a real, so the `(long)` cast of NaN, infinities and out-of-range floats is not modelled (the result is 0 either way).
- `BooleanValues.BooleanValueList.Copy`: a source longer than `sizeMax` is excluded by a precondition, because the source asserts after writing `num` and has no recovery path.
- `Plots.GeneratePlotPaint`: the Paint object, its style and text alignment belong to the drawing backend; the model keeps the stroke width, the colour and the anti-alias flag. The float width is a real.
- All lists need `sizeMax > 0`: with capacity 0 the first `add` indexes an empty array.
- `Plots.Plot.constructor`: `maxCache` 0 is documented as "no limit" (de/fau/mad/plotview/Plot.java:564-567), but the lists are built with capacity `maxCache` and a capacity-0 ring indexes an empty array on its first `add`. The constructor therefore requires `maxCache > 0`, and an unbounded mode is not modelled.
- `BooleanValueList` takes boxed `Boolean` arguments in `set`, `add(int, Boolean)`, `add(Boolean)` and `copy`; a null argument throws `NullPointerException` on unboxing (de/fau/mad/plotview/BooleanValueList.java:295, :154, :332, :93). A Dafny `bool` has no null, so that failure is not modelled.
