/** Properties of the `Timeslot` operations that relate several calls:
    the boundary rules (touching is not overlapping, containment is closed),
    symmetry, the reference meaning of each operation in terms of the
    instants a slot covers, and the order used for sorting. */
module TimeslotProperties {
  import opened Timeslots

  /** The instants a slot occupies when read as the half-open range
      `[start, end)`. For non-empty slots `overlaps` agrees with this
      reading (`OverlapsIffSharedInstant`); a single-instant slot occupies
      nothing under it, yet overlaps every slot that contains it. */
  ghost predicate Occupies(s: Timeslot, t: int) {
    s.start <= t < s.end
  }

  // ---------------------------------------------------------------------
  // Overlap, adjacency and gaps at the boundaries

  /** Two non-empty slots that only touch (`a.end == b.start`) do not
      overlap in either direction, are adjacent in both directions, have no
      intersection and no gap, and their union runs from `a.start` to
      `b.end`. */
  lemma TouchingSlots(a: Timeslot, b: Timeslot)
    requires a.NonEmpty() && b.NonEmpty() && a.end == b.start
    ensures !a.Overlaps(b) && !b.Overlaps(a)
    ensures a.Adjacent(b) && b.Adjacent(a)
    ensures a.Intersection(b).None? && b.Intersection(a).None?
    ensures a.Gap(b).None? && b.Gap(a).None?
    ensures a.Union(b) == Ok(Timeslot(a.start, b.end))
    ensures a.Union(b).value.Duration() == a.Duration() + b.Duration()
  {
  }

  /** The touching rule needs both slots to be non-empty: an empty slot
      placed at the end of another lies inside it, and so overlaps it in
      both directions. */
  lemma EmptySlotAtBoundaryOverlaps(a: Timeslot, b: Timeslot)
    requires a.NonEmpty() && b.start == b.end == a.end
    ensures a.Overlaps(b) && b.Overlaps(a)
    ensures a.Intersection(b) == Some(b)
  {
  }

  /** A slot that lies inside another, well-formed one overlaps it in both
      directions, their intersection, taken either way round, is the inner
      slot, and their union is the outer slot. */
  lemma NestedSlots(outer: Timeslot, inner: Timeslot)
    requires inner.WellFormed() && outer.ContainsSlot(inner)
    ensures outer.Overlaps(inner) && inner.Overlaps(outer)
    ensures outer.Intersection(inner) == Some(inner) && inner.Intersection(outer) == Some(inner)
    ensures outer.Union(inner) == Ok(outer) && inner.Union(outer) == Ok(outer)
  {
  }

  /** Two slots where `b` starts inside `a` and ends after it overlap in
      both directions, their intersection, taken either way round, runs
      from `b.start` to `a.end`, and their union runs from `a.start` to
      `b.end`. */
  lemma PartiallyOverlappingSlots(a: Timeslot, b: Timeslot)
    requires a.start < b.start < a.end < b.end
    ensures a.Overlaps(b) && b.Overlaps(a)
    ensures a.Intersection(b) == Some(Timeslot(b.start, a.end))
    ensures b.Intersection(a) == Some(Timeslot(b.start, a.end))
    ensures a.Union(b) == Ok(Timeslot(a.start, b.end))
  {
  }

  /** For well-formed slots `overlaps` does not depend on the order of its
      operands. */
  lemma OverlapsSymmetric(a: Timeslot, b: Timeslot)
    requires a.WellFormed() && b.WellFormed()
    ensures a.Overlaps(b) == b.Overlaps(a)
  {
  }

  /** For an inverted operand it does: `(0, 5)` does not overlap `(7, -2)`,
      yet `(7, -2)` overlaps `(0, 5)` because it passes the `self in other`
      test. */
  lemma OverlapsAsymmetricWhenInverted()
    ensures !Timeslot(0, 5).Overlaps(Timeslot(7, -2))
    ensures Timeslot(7, -2).Overlaps(Timeslot(0, 5))
  {
  }

  /** For non-empty slots, `overlaps` means sharing an instant of the
      half-open ranges `[start, end)`. */
  lemma {:induction false} OverlapsIffSharedInstant(a: Timeslot, b: Timeslot)
    requires a.NonEmpty() && b.NonEmpty()
    ensures a.Overlaps(b) <==> exists t :: Occupies(a, t) && Occupies(b, t)
  {
    if a.Overlaps(b) {
      var t := Max(a.start, b.start);
      assert Occupies(a, t) && Occupies(b, t);
    }
  }

  /** Two non-empty slots are in exactly one of three positions: they
      overlap, they touch, or a gap separates them. */
  lemma OverlapAdjacencyGapTrichotomy(a: Timeslot, b: Timeslot)
    requires a.NonEmpty() && b.NonEmpty()
    ensures a.Overlaps(b) || a.Adjacent(b) || a.Gap(b).Some?
    ensures !(a.Overlaps(b) && a.Adjacent(b))
    ensures !(a.Overlaps(b) && a.Gap(b).Some?)
    ensures !(a.Adjacent(b) && a.Gap(b).Some?)
  {
  }

  // ---------------------------------------------------------------------
  // Containment

  /** Closed containment of a well-formed slot is containment of every
      instant of it. */
  lemma {:induction false} ContainsSlotIffContainsInstants(a: Timeslot, b: Timeslot)
    requires b.WellFormed()
    ensures a.ContainsSlot(b) <==> forall t :: b.ContainsInstant(t) ==> a.ContainsInstant(t)
  {
    if forall t :: b.ContainsInstant(t) ==> a.ContainsInstant(t) {
      assert b.ContainsInstant(b.start) && b.ContainsInstant(b.end);
    }
  }

  /** Containment is closed: a slot contains itself, its own two endpoints,
      and every operand that is neither a slot nor an instant is refused. */
  lemma ContainsIsClosed(a: Timeslot)
    requires a.WellFormed()
    ensures a.Contains(Slot(a)) == Ok(true)
    ensures a.Contains(Instant(a.start)) == Ok(true) && a.Contains(Instant(a.end)) == Ok(true)
    ensures a.Membership(Other) == Err(TypeError)
  {
  }

  // ---------------------------------------------------------------------
  // Intersection

  /** `intersection` gives the same answer for either order of its operands,
      though the two orders may pass through different tests. This holds for
      inverted slots too. */
  lemma IntersectionSymmetric(a: Timeslot, b: Timeslot)
    ensures a.Intersection(b) == b.Intersection(a)
  {
  }

  /** The duration of an intersection of well-formed slots is at most the
      duration of either slot, and the durations of intersection and union
      add up to those of the two slots. */
  lemma IntersectionUnionDurations(a: Timeslot, b: Timeslot)
    requires a.WellFormed() && b.WellFormed() && a.Intersection(b).Some?
    ensures 0 <= a.Intersection(b).value.Duration() <= Min(a.Duration(), b.Duration())
    ensures a.Union(b).Ok?
    ensures a.Union(b).value.Duration() + a.Intersection(b).value.Duration() == a.Duration() + b.Duration()
  {
  }

  // ---------------------------------------------------------------------
  // Gap and union

  /** For well-formed slots `gap` does not depend on the order of its
      operands. */
  lemma GapSymmetric(a: Timeslot, b: Timeslot)
    requires a.WellFormed() && b.WellFormed()
    ensures a.Gap(b) == b.Gap(a)
  {
  }

  /** For inverted slots both tests of `gap` can pass, and the first one
      decides: `(10, 0)` and `(5, -5)` give different gaps in the two
      orders. */
  lemma GapDependsOnOrderWhenInverted()
    ensures Timeslot(10, 0).Gap(Timeslot(5, -5)) == Some(Timeslot(0, 5))
    ensures Timeslot(5, -5).Gap(Timeslot(10, 0)) == Some(Timeslot(-5, 10))
  {
  }

  /** Well-formed slots have no gap exactly when they share an instant of
      their closed ranges. */
  lemma {:induction false} GapNoneIffSharedInstant(a: Timeslot, b: Timeslot)
    requires a.WellFormed() && b.WellFormed()
    ensures a.Gap(b).None? <==> exists t :: a.ContainsInstant(t) && b.ContainsInstant(t)
  {
    if a.Gap(b).None? {
      var t := Max(a.start, b.start);
      assert a.ContainsInstant(t) && b.ContainsInstant(t);
    }
  }

  /** `union` gives the same answer for either order of its operands. */
  lemma UnionCommutes(a: Timeslot, b: Timeslot)
    ensures a.Union(b) == b.Union(a)
  {
  }

  /** The union of a well-formed slot with itself is the slot; for an
      inverted slot it fails, because the slot's end lies before its own
      start and so counts as a gap. */
  lemma UnionWithSelf(a: Timeslot)
    ensures a.WellFormed() ==> a.Union(a) == Ok(a)
    ensures !a.WellFormed() ==> a.Union(a) == Err(UnionGap)
  {
  }

  /** A successful union is the smallest slot that contains both operands. */
  lemma UnionIsSmallest(a: Timeslot, b: Timeslot, c: Timeslot)
    requires a.Union(b).Ok?
    requires c.ContainsSlot(a) && c.ContainsSlot(b)
    ensures c.ContainsSlot(a.Union(b).value)
  {
  }

  // ---------------------------------------------------------------------
  // Equality and the sorting order

  /** `Less` puts the earlier start first and is a strict weak order:
      irreflexive, transitive, and two slots
      are unordered exactly when they start together, whatever their ends;
      so distinct slots can be unordered. */
  lemma LessIsStrictWeakOrder(a: Timeslot, b: Timeslot, c: Timeslot)
    ensures !a.Less(a)
    ensures a.Less(b) && b.Less(c) ==> a.Less(c)
    ensures a.Less(b) <==> a.start < b.start
    ensures !a.Less(b) && !b.Less(a) <==> a.start == b.start
    ensures (!a.Less(b) && !b.Less(a)) && (!b.Less(c) && !c.Less(b)) ==> !a.Less(c) && !c.Less(a)
    ensures !Timeslot(0, 1).Less(Timeslot(0, 2)) && !Timeslot(0, 2).Less(Timeslot(0, 1))
    ensures !Timeslot(0, 1).Equals(Timeslot(0, 2))
  {
  }

  /** A list is sorted for `<` when no slot is `<` a slot before it. */
  ghost predicate Sorted(s: seq<Timeslot>) {
    forall i, j :: 0 <= i < j < |s| ==> !s[j].Less(s[i])
  }

  /** Each slot is not `<` the one just before it. */
  ghost predicate NeighboursInOrder(s: seq<Timeslot>) {
    forall i :: 0 < i < |s| ==> !s[i].Less(s[i - 1])
  }

  /** Checking neighbours is enough for a list to be sorted by `Less`, and
      a list sorted by `Less` lists its slots by ascending start. */
  lemma {:induction false} NeighboursInOrderIsSorted(s: seq<Timeslot>)
    requires NeighboursInOrder(s)
    ensures Sorted(s)
    ensures forall i, j :: 0 <= i < j < |s| ==> s[i].start <= s[j].start
  {
    if |s| >= 2 {
      var tail := s[1..];
      assert NeighboursInOrder(tail) by {
        forall i | 0 < i < |tail| ensures !tail[i].Less(tail[i - 1]) {
          assert tail[i] == s[i + 1] && tail[i - 1] == s[i];
        }
      }
      NeighboursInOrderIsSorted(tail);
      forall i, j | 0 <= i < j < |s| ensures !s[j].Less(s[i]) {
        if i == 0 {
          assert !s[1].Less(s[0]);
          if j > 1 {
            assert !tail[j - 1].Less(tail[0]);
          }
        } else {
          assert !tail[j - 1].Less(tail[i - 1]);
        }
      }
    }
  }
}
