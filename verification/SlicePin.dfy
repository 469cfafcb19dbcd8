/** A retired slice of the V4 read buffer goes back once its last zero-copy lease is gone, whichever of
    `retire` and the last drop comes first (src/buffer/linked.rs). The pin state is reference counted:
    every lease holds one reference, and `retire` holds the registry's while it runs. */
module SlicePin {
  import opened Wrappers

  datatype Retirer = NotStarted | FoundUnique | FoundShared | Stored | Reclaimed | Finished

  /** `parked`: the slice has been left in the pin state for its last holder. */
  datatype State = State(leases: nat, retirer: Retirer, parked: bool, reclaims: nat)

  datatype Step =
    | Acquire          // only while the registry still knows the slice
    | DropLease
    | LoadCount        // `retire` looks at the reference count
    | Reclaim          // and gives the slice back itself,
    | Park             // or leaves it for the last holder,
    | Finish           // and drops its own reference

  function Count(st: State): nat { st.leases + if st.retirer.Finished? then 0 else 1 }

  predicate Enabled(st: State, step: Step) {
    match step
    case Acquire => st.retirer.NotStarted?
    case DropLease => st.leases > 0
    case LoadCount => st.retirer.NotStarted?
    case Reclaim => st.retirer.FoundUnique?
    case Park => st.retirer.FoundShared?
    case Finish => st.retirer.Reclaimed? || st.retirer.Stored?
  }

  /** The last reference drops the pin state, which gives a parked slice back. */
  function Dropped(st: State): State {
    if Count(st) == 0 && st.parked then st.(parked := false, reclaims := st.reclaims + 1) else st
  }

  function Apply(st: State, step: Step): State
    requires Enabled(st, step)
  {
    match step
    case Acquire => st.(leases := st.leases + 1)
    case DropLease => Dropped(st.(leases := st.leases - 1))
    case LoadCount => st.(retirer := if Count(st) == 1 then FoundUnique else FoundShared)
    case Reclaim => st.(retirer := Reclaimed, reclaims := st.reclaims + 1)
    case Park => st.(retirer := Stored, parked := true)
    case Finish => Dropped(st.(retirer := Finished))
  }

  ghost predicate Init(st: State) { st == State(0, NotStarted, false, 0) }

  function Exec(st: State, steps: seq<Step>): Option<State>
    decreases |steps|
  {
    if steps == [] then Some(st)
    else if Enabled(st, steps[0]) then Exec(Apply(st, steps[0]), steps[1..])
    else None
  }

  ghost predicate Inv(st: State) {
    && (st.retirer.NotStarted? || st.retirer.FoundShared? ==> !st.parked && st.reclaims == 0)
    && (st.retirer.FoundUnique? ==> st.leases == 0 && !st.parked && st.reclaims == 0)
    && (st.retirer.Reclaimed? ==> st.leases == 0 && !st.parked && st.reclaims == 1)
    && (st.retirer.Stored? ==> st.parked && st.reclaims == 0)
    && (st.retirer.Finished? ==> if st.leases > 0 then st.parked && st.reclaims == 0 else !st.parked && st.reclaims == 1)
  }

  lemma {:induction false} RunKeeps(st: State, steps: seq<Step>)
    requires Inv(st) && Exec(st, steps).Some?
    ensures Inv(Exec(st, steps).value)
    decreases |steps|
  {
    if steps != [] { RunKeeps(Apply(st, steps[0]), steps[1..]); }
  }

  /** For every interleaving: a slice is given back at most once and never while a lease is out; and
      once `retire` has returned and the last lease is gone, it has been given back. */
  lemma ReclaimedExactlyOnce(start: State, steps: seq<Step>)
    requires Init(start) && Exec(start, steps).Some?
    ensures var st := Exec(start, steps).value;
            && st.reclaims <= 1 && (st.leases > 0 ==> st.reclaims == 0)
            && (Count(st) == 0 ==> st.reclaims == 1)
  {
    RunKeeps(start, steps);
  }
}
