# Timeslot interval algebra, modelled in Dafny

This project models the `Timeslot` value type of the `timeslot` Python
library: a pair of instants `(start, end)` and the operations that relate two
slots (or a slot and an instant): `duration`, `overlaps`/`intersects`,
`contains`/`in`, equality, the sorting order `<`, `intersection`, `adjacent`,
`gap` and `union`. The point of the library is its boundary rules, which the
model keeps exactly: for non-empty slots `overlaps` means sharing an instant
of the half-open ranges `[start, end)`, so non-empty slots that only touch do
not overlap; `contains` is closed at
both ends; `gap` uses strict comparisons; `intersection` tries four tests in a
fixed order.

Instants are `int` and durations are `int` differences. Nothing requires
`start <= end`: an inverted slot is a legal value and every operation is
defined on it. Properties that hold only for well-formed slots say so in their
`requires`.

Files:
- `timeslot.dfy` (module `Timeslots`): the datatype `Timeslot` with one member
  function per operation, the operand kinds of `contains`, and the error
  kinds (`TypeError` from `contains`, `UnionGap` from `union`).
- `timeslot_properties.dfy` (module `TimeslotProperties`): lemmas relating the
  operations to each other and to the instants a slot covers.

Behaviours the proofs bring out:
- Two well-formed slots that touch do not overlap only when both are
  non-empty. An empty slot placed at the end of a non-empty slot lies inside
  it, so the two overlap and their intersection is the empty slot.
- `intersection` is symmetric for every pair of slots, inverted ones included,
  and a non-`None` result is always `(max of starts, min of ends)`.
- `overlaps` and `gap` are symmetric for well-formed slots only; for inverted
  slots concrete counterexamples are proved.
- The union of an inverted slot with itself fails, because its own end lies
  before its own start and so counts as a gap.

## Model

| member | source | states |
|---|---|---|
| `Timeslots.Timeslot.Duration` | src/timeslot/timeslot.py:17-19 | the duration is `end - start`; it is negative exactly for an inverted slot and zero exactly for a single-instant slot |
| `Timeslots.Timeslot.ContainsSlot` | src/timeslot/timeslot.py:35-36 | closed containment of a slot: every instant of the inner slot is an instant of the outer one; a slot contains itself |
| `Timeslots.Timeslot.ContainsInstant` | src/timeslot/timeslot.py:37-38 | closed containment of an instant: both endpoints of a well-formed slot are contained, nothing outside `[start, end]` is, and an inverted slot contains no instant |
| `Timeslots.Timeslot.Contains` | src/timeslot/timeslot.py:33-40 | `contains` answers for a slot or an instant and fails with a type error exactly for any other kind of operand |
| `Timeslots.Timeslot.Membership` | src/timeslot/timeslot.py:42-43 | the `in` test gives the same result as `contains` |
| `Timeslots.Timeslot.Overlaps` | src/timeslot/timeslot.py:21-27 | non-empty slots that touch do not overlap; overlapping well-formed slots share a closed instant; a slot inside the other one (`self in other`) overlaps it |
| `Timeslots.Timeslot.Intersects` | src/timeslot/timeslot.py:29-31 | `intersects` is the same relation as `overlaps` |
| `Timeslots.Timeslot.Equals` | src/timeslot/timeslot.py:45-49 | equality of both endpoints is equality of the slots |
| `Timeslots.Timeslot.Less` | src/timeslot/timeslot.py:51-60 | the order compares starts only: the slot with the earlier start comes first, equal starts are never ordered, and no slot is before itself |
| `Timeslots.Timeslot.Intersection` | src/timeslot/timeslot.py:62-77 | a result is `(max of starts, min of ends)` and holds exactly the instants of both slots; for well-formed slots there is a result exactly when they overlap, and it is well-formed and inside both |
| `Timeslots.Timeslot.Adjacent` | src/timeslot/timeslot.py:79-81 | adjacent non-empty slots do not overlap; adjacent well-formed slots meet at exactly one instant |
| `Timeslots.Timeslot.Gap` | src/timeslot/timeslot.py:83-90 | a gap exists exactly when one slot ends strictly before the other starts; it is non-empty, runs from the earlier slot's end to the later slot's start, and no instant strictly inside it belongs to either slot |
| `Timeslots.Timeslot.Union` | src/timeslot/timeslot.py:92-96 | union succeeds exactly when there is no gap and fails with `UnionGap` otherwise; the result runs from the earlier start to the later end, contains both slots and holds exactly their instants, so no gap is bridged |
| `TimeslotProperties.TouchingSlots` | tests/test_timeslot.py:59-65 | non-empty slots with `a.end == b.start` do not overlap either way, are adjacent both ways, have no intersection and no gap, and their union lasts as long as both together |
| `TimeslotProperties.EmptySlotAtBoundaryOverlaps` | src/timeslot/timeslot.py:21-27 | an empty slot at the end of a non-empty one overlaps it both ways, so the touching rule needs non-empty slots |
| `TimeslotProperties.NestedSlots` | tests/test_timeslot.py:67-71 | a well-formed slot inside another overlaps it both ways; the intersection either way round is the inner slot and the union is the outer one |
| `TimeslotProperties.PartiallyOverlappingSlots` | tests/test_timeslot.py:73-77 | partially overlapping slots overlap both ways and their intersection either way round is the shared part |
| `TimeslotProperties.OverlapsSymmetric` | src/timeslot/timeslot.py:21-27 | for well-formed slots `overlaps` is symmetric |
| `TimeslotProperties.OverlapsAsymmetricWhenInverted` | src/timeslot/timeslot.py:21-27 | for an inverted operand `overlaps` is not symmetric: `(7, -2)` overlaps `(0, 5)` but not the other way round |
| `TimeslotProperties.OverlapsIffSharedInstant` | src/timeslot/timeslot.py:21-27 | non-empty slots overlap exactly when their half-open ranges `[start, end)` share an instant |
| `TimeslotProperties.OverlapAdjacencyGapTrichotomy` | src/timeslot/timeslot.py:79-90 | two non-empty slots either overlap, touch, or are separated by a gap, and exactly one of the three |
| `TimeslotProperties.ContainsSlotIffContainsInstants` | src/timeslot/timeslot.py:33-38 | a slot contains a well-formed slot exactly when it contains every instant of it |
| `TimeslotProperties.ContainsIsClosed` | tests/test_timeslot.py:39-56 | a well-formed slot contains itself and both its endpoints, and the `in` test refuses an operand of any other kind |
| `TimeslotProperties.IntersectionSymmetric` | tests/test_timeslot.py:7-36 | `a.intersection(b)` and `b.intersection(a)` are the same, for every pair of slots |
| `TimeslotProperties.IntersectionUnionDurations` | src/timeslot/timeslot.py:62-96 | the intersection of well-formed slots lasts no longer than either slot, and the durations of union and intersection add up to those of the two slots |
| `TimeslotProperties.GapSymmetric` | src/timeslot/timeslot.py:83-90 | for well-formed slots `gap` is symmetric |
| `TimeslotProperties.GapDependsOnOrderWhenInverted` | src/timeslot/timeslot.py:83-90 | for inverted slots both tests of `gap` can pass and the gaps differ with the order of the operands |
| `TimeslotProperties.GapNoneIffSharedInstant` | src/timeslot/timeslot.py:83-90 | well-formed slots have no gap exactly when their closed ranges share an instant |
| `TimeslotProperties.UnionCommutes` | src/timeslot/timeslot.py:92-96 | `union` does not depend on the order of its operands |
| `TimeslotProperties.UnionWithSelf` | tests/test_timeslot.py:98-100 | the union of a well-formed slot with itself is the slot; for an inverted slot it fails |
| `TimeslotProperties.UnionIsSmallest` | src/timeslot/timeslot.py:92-94 | every slot that contains both operands contains their union |
| `TimeslotProperties.LessIsStrictWeakOrder` | src/timeslot/timeslot.py:51-54 | the order runs by ascending start; it is irreflexive and transitive, slots are unordered exactly when they start together, and distinct slots can be unordered |
| `TimeslotProperties.NeighboursInOrderIsSorted` | src/timeslot/timeslot.py:51-54 | a list whose neighbours are in order is sorted by `<`, and such a list has ascending starts, which is what sorting a list of slots relies on |

## Left out

- `sub` (set difference): the tests call it, but `src/timeslot/timeslot.py` defines no such method, so its behaviour is not modelled.
- `__repr__`: string formatting only.
- `__eq__` and `__lt__` applied to a value that is not a `Timeslot` (`False` and a `TypeError` in Python): the model's operands are typed, so that case cannot arise.
- `datetime` and `timedelta` details (calendar, time zones, the clock read by `datetime.now()` in the tests): instants are `int`.
- The negative-duration check in the constructor is commented out in the source and is not modelled; slots may be inverted.
- `union` tests the gap with Python truthiness (`if not self.gap(other)`); since a gap is always a `Timeslot` object, the model tests for `None` directly.
