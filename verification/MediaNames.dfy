/** The names the card transactions work on. */
module MediaNames {
  import opened Common
  import opened MediaSteps

  /**
   * The update name that the stock loader looks for, the passive name of the same package, the stage-2 file, the
   * temporaries and the rollback copies of either; and every other name.
   */
  datatype Name = Active | Passive | Stage2 | Temporary | Stage2Temporary | Rollback | Stage2Rollback | Other(name: string)

  datatype CardOutcome = Done | Refused | Failed | Crashed

  function After(f: Fate): CardOutcome {
    match f
    case Well => Done
    case Fails(_) => Failed
    case Crashes(_) => Crashed
  }

  /** Names the stock loader would take for an update. */
  predicate Selected(selects: string -> bool, n: Name) {
    n == Active || (n.Other? && selects(n.name))
  }

  predicate NothingSelected(selects: string -> bool, files: Files<Name>) {
    forall n <- files :: !Selected(selects, n)
  }

  predicate OnlyActiveSelected(selects: string -> bool, files: Files<Name>) {
    Active in files && forall n <- files :: Selected(selects, n) ==> n == Active
  }

  /** In other words: the armed name aside, no other name there is one that the loader selects. */
  lemma SelectionExactly(selects: string -> bool, files: Files<Name>)
    ensures NothingSelected(selects, files) <==> Active !in files && forall s | selects(s) :: Other(s) !in files
    ensures OnlyActiveSelected(selects, files) <==> Active in files && forall s | selects(s) :: Other(s) !in files
  {
  }

  /** Names outside a given set keep what they have. */
  ghost predicate Keeps(before: Files<Name>, after: Files<Name>, changed: set<Name>) {
    forall n: Name :: n !in changed ==> Get(after, n) == Get(before, n)
  }
}
