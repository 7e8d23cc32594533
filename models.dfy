/** The cell-status types of `src/plugins/flow_field_pathfinding/models.rs`. */
module Models {

  /** Whether a cell is covered by an obstacle; `Empty` is the default. */
  datatype BlockedStatus = Empty | Blocked

  /** Whether a cell is covered by a target; `NotTarget` is the default. */
  datatype TargetStatus = NotTarget | IsTarget

  /** The distance of a cell to the nearest target; only `Computed` carries one. */
  datatype TargetProximity = Unreachable | NotComputed | Computed(distance: real)

  /** An implementation of the `CellStatus` trait: the type's `Default` value
      and the value `get_non_default_value` returns. */
  datatype CellStatus<S> = CellStatus(defaultValue: S, nonDefaultValue: S)

  /** What a rasterizer generic over `CellStatus` relies on: the flagged value
      can be told apart from the default one. */
  predicate Distinguishes<S(==)>(impl: CellStatus<S>)
  {
    impl.nonDefaultValue != impl.defaultValue
  }

  /** `impl CellStatus for BlockedStatus`. */
  function BlockedStatusImpl(): (impl: CellStatus<BlockedStatus>)
    ensures Distinguishes(impl)
  {
    CellStatus(Empty, Blocked)
  }

  /** `impl CellStatus for TargetStatus`. */
  function TargetStatusImpl(): (impl: CellStatus<TargetStatus>)
    ensures Distinguishes(impl)
  {
    CellStatus(NotTarget, IsTarget)
  }

  /** A proximity value is exactly one of the three cases, and only a
      computed one has a distance. */
  lemma ProximityCases(p: TargetProximity)
    ensures p.Unreachable? || p.NotComputed? || p.Computed?
    ensures !(p.Unreachable? && p.NotComputed?) && !(p.Unreachable? && p.Computed?) && !(p.NotComputed? && p.Computed?)
  {
  }
}
