/** The `Timeslot` value type: a pair of instants `(start, end)` and its
    relational and algebraic operations.

    Instants are modelled as `int` (any totally ordered, subtractable
    instant type behaves the same way under these operations) and a
    duration is the `int` difference of two instants. Nothing enforces
    `start <= end`: a slot may be inverted, and every operation is defined
    for inverted slots too. */
module Timeslots {

  datatype Option<T> = None | Some(value: T)

  /** The two ways an operation can fail. */
  datatype Error =
    | TypeError   // `contains` was given an operand that is neither a slot nor an instant
    | UnionGap    // `union` was asked to join slots with empty time between them

  datatype Result<T> = Ok(value: T) | Err(error: Error)

  /** The right-hand operand of `contains`: a slot, an instant, or a value of
      any other kind. */
  datatype Operand = Slot(slot: Timeslot) | Instant(at: int) | Other

  function Max(x: int, y: int): (r: int)
    ensures x <= r && y <= r && (r == x || r == y)
  {
    if x < y then y else x
  }

  function Min(x: int, y: int): (r: int)
    ensures r <= x && r <= y && (r == x || r == y)
  {
    if x < y then x else y
  }

  datatype Timeslot = Timeslot(start: int, end: int) {

    /** A slot whose start does not come after its end. */
    predicate WellFormed() { start <= end }

    /** A well-formed slot that spans more than a single instant. */
    predicate NonEmpty() { start < end }

    /** `end - start`; negative exactly for an inverted slot. */
    function Duration(): (d: int)
      ensures d < 0 <==> !WellFormed()
      ensures d == 0 <==> start == end
      ensures start + d == end
    {
      end - start
    }

    /** Closed containment of a slot: `other` lies within the bounds of this
        slot, both bounds inclusive. */
    function ContainsSlot(other: Timeslot): (r: bool)
      ensures r ==> forall t :: other.ContainsInstant(t) ==> ContainsInstant(t)
      ensures other == this ==> r
      ensures r && other.WellFormed() ==> WellFormed()
    {
      start <= other.start && other.end <= end
    }

    /** Closed containment of an instant: `start <= t <= end`. */
    function ContainsInstant(t: int): (r: bool)
      ensures r ==> WellFormed()
      ensures WellFormed() && (t == start || t == end) ==> r
      ensures t < start || end < t ==> !r
    {
      start <= t <= end
    }

    /** `contains`: dispatches on the kind of operand; any operand that is
        neither a slot nor an instant is a type error. */
    function Contains(x: Operand): (r: Result<bool>)
      ensures r.Err? <==> x.Other?
      ensures r.Err? ==> r.error == TypeError
      ensures x.Slot? ==> r == Ok(ContainsSlot(x.slot))
      ensures x.Instant? ==> r == Ok(ContainsInstant(x.at))
    {
      match x
      case Slot(s) => Ok(ContainsSlot(s))
      case Instant(t) => Ok(ContainsInstant(t))
      case Other => Err(TypeError)
    }

    /** The membership test `x in slot`, which is `contains` under another
        name. */
    function Membership(x: Operand): (r: Result<bool>)
      ensures r == Contains(x)
    {
      Contains(x)
    }

    /** Overlap: `other` starts in `[start, end)`, or ends in `(start, end]`,
        or this slot lies inside `other` (the `self in other` test, that is
        `other` contains this slot). */
    function Overlaps(other: Timeslot): (r: bool)
      ensures NonEmpty() && other.NonEmpty() && (end == other.start || other.end == start) ==> !r
      ensures WellFormed() && other.WellFormed() && r ==> Max(start, other.start) <= Min(end, other.end)
      ensures other.ContainsSlot(this) ==> r
    {
      || start <= other.start < end
      || start < other.end <= end
      || other.ContainsSlot(this)
    }

    /** `intersects` is `overlaps` under another name. */
    function Intersects(other: Timeslot): (r: bool)
      ensures r == Overlaps(other)
    {
      Overlaps(other)
    }

    /** Equality compares both endpoints, which is equality of the values. */
    function Equals(other: Timeslot): (r: bool)
      ensures r <==> this == other
    {
      start == other.start && end == other.end
    }

    /** The order used to sort slots: the slot that starts earlier comes
        first; `end` is no tiebreaker. */
    function Less(other: Timeslot): (r: bool)
      ensures start < other.start ==> r
      ensures other.start <= start ==> !r
    {
      start < other.start
    }

    /** The part common to both slots. The four tests are tried in this
        order: `other` inside this slot, `other` starting in `[start, end)`,
        `other` ending in `(start, end]`, this slot inside `other`. */
    function Intersection(other: Timeslot): (r: Option<Timeslot>)
      ensures r.Some? ==> r.value == Timeslot(Max(start, other.start), Min(end, other.end))
      ensures r.Some? ==>
        forall t :: r.value.ContainsInstant(t) <==> ContainsInstant(t) && other.ContainsInstant(t)
      ensures WellFormed() && other.WellFormed() ==> (r.Some? <==> Overlaps(other))
      ensures r.Some? && WellFormed() && other.WellFormed() ==>
        r.value.WellFormed() && ContainsSlot(r.value) && other.ContainsSlot(r.value)
    {
      if ContainsSlot(other) then Some(other)
      else if start <= other.start < end then Some(Timeslot(other.start, end))
      else if start < other.end <= end then Some(Timeslot(start, other.end))
      else if other.ContainsSlot(this) then Some(this)
      else None
    }

    /** Adjacency: one slot starts exactly where the other ends. */
    function Adjacent(other: Timeslot): (r: bool)
      ensures r && NonEmpty() && other.NonEmpty() ==> !Overlaps(other)
      ensures r && WellFormed() && other.WellFormed() ==> Max(start, other.start) == Min(end, other.end)
    {
      start == other.end || end == other.start
    }

    /** The empty time strictly between two separated slots, from the end of
        the earlier one to the start of the later one; `None` when the slots
        touch or overlap. */
    function Gap(other: Timeslot): (r: Option<Timeslot>)
      ensures r.Some? <==> end < other.start || other.end < start
      ensures r.Some? ==> r.value.NonEmpty()
      ensures r.Some? ==>
        || (r.value.start == end && r.value.end == other.start)
        || (r.value.start == other.end && r.value.end == start)
      ensures r.Some? ==>
        forall t :: r.value.start < t < r.value.end ==> !ContainsInstant(t) && !other.ContainsInstant(t)
    {
      if end < other.start then Some(Timeslot(end, other.start))
      else if other.end < start then Some(Timeslot(other.end, start))
      else None
    }

    /** The slot from the earlier start to the later end; an error when a gap
        separates the two slots. */
    function Union(other: Timeslot): (r: Result<Timeslot>)
      ensures r.Ok? <==> Gap(other).None?
      ensures r.Err? ==> r.error == UnionGap
      ensures r.Ok? ==> r.value == Timeslot(Min(start, other.start), Max(end, other.end))
      ensures r.Ok? ==> r.value.ContainsSlot(this) && r.value.ContainsSlot(other)
      ensures r.Ok? ==>
        forall t :: r.value.ContainsInstant(t) <==> ContainsInstant(t) || other.ContainsInstant(t)
    {
      if Gap(other).None? then Ok(Timeslot(Min(start, other.start), Max(end, other.end)))
      else Err(UnionGap)
    }
  }
}
