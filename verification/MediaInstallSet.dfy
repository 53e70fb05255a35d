/**
 * Staging, activation and deactivation of a bootstrap with its stage 2 (installer/media_install_set.py), and of a
 * capture package on its own (installer/media_capture.py).
 */
module MediaInstallSet {
  import opened Common
  import opened MediaSteps
  import opened MediaNames

  /** The armed name is there only with stage 2 beside it, each with its exact bytes. */
  ghost predicate ArmedWithStage2(bootstrap: Bytes, stage2: Bytes, files: Files<Name>) {
    Active in files ==> Get(files, Active) == Some(bootstrap) && Get(files, Stage2) == Some(stage2)
  }

  predicate StageFit(selects: string -> bool, files: Files<Name>) {
    && NothingSelected(selects, files)
    && Stage2Temporary !in files && Temporary !in files && Stage2 !in files && Active !in files
  }

  const STAGED: set<Name> := {Active, Stage2, Temporary, Stage2Temporary}

  predicate ActivateFit(selects: string -> bool, files: Files<Name>, bootstrap: Bytes, stage2: Option<Bytes>) {
    && NothingSelected(selects, files) && Passive in files && files[Passive] == bootstrap
    && (stage2.Some? ==> Stage2 in files && files[Stage2] == stage2.value)
  }

  /** One package under exactly one of the armed and the passive name, and all else as it was. */
  ghost predicate Switched(before: Files<Name>, files: Files<Name>, package: Bytes, armed: bool) {
    && Get(files, Active) == (if armed then Some(package) else None)
    && Get(files, Passive) == (if armed then None else Some(package))
    && Keeps(before, files, {Active, Passive})
  }

  predicate DeactivateFit(selects: string -> bool, files: Files<Name>, bootstrap: Bytes, stage2: Bytes,
                          existing: Option<Bytes>) {
    && OnlyActiveSelected(selects, files) && files[Active] == bootstrap && Rollback !in files
    && Stage2 in files && files[Stage2] == stage2
    && if existing.None? then Passive !in files else Passive in files && files[Passive] == existing.value
  }

  /** The five steps up to the removal of the copied old passive file go well, the sync after it fails. */
  predicate LastSyncFails(fates: seq<Fate>) { FailsAfter(fates, 5) }

  /** And nothing else fails. */
  const LAST_SYNC_ONLY: seq<Fate> := [Well, Well, Well, Well, Well, Fails(None)]

  lemma LastSyncOnlyFails()
    ensures LastSyncFails(LAST_SYNC_ONLY)
  {
    var f: Fate := Fails(None);
    assert Rest([Well, Well, Well, Well, Well, f]) == [Well, Well, Well, Well, f];
    assert Rest([Well, Well, Well, Well, f]) == [Well, Well, Well, f];
    assert Rest([Well, Well, Well, f]) == [Well, Well, f];
    assert Rest([Well, Well, f]) == [Well, f] && Rest([Well, f]) == [f];
  }

  const SWITCHED: set<Name> := {Active, Passive, Rollback}

  class InstallSet {
    const selects: string -> bool
    const card: Card<Name>

    constructor (selects: string -> bool, card: Card<Name>)
      ensures this.selects == selects && this.card == card
    {
      this.selects, this.card := selects, card;
    }

    method StageAttempt(bootstrap: Bytes, stage2: Bytes) returns (f: Fate, stage2Active: bool, active: bool)
      requires StageFit(selects, card.files)
      modifies card
      ensures Keeps(old(card.files), card.files, STAGED) && (active ==> stage2Active)
      ensures Get(card.files, Active) == if active then Some(bootstrap) else None
      ensures Get(card.files, Stage2) == if stage2Active then Some(stage2) else None
      ensures f.Well? ==> active && Get(card.files, Temporary).None? && Get(card.files, Stage2Temporary).None?
      ensures card.failures == if f.Fails? then old(card.failures) + 1 else old(card.failures)
      ensures NoCrash(old(card.fates)) ==> !f.Crashes? && NoCrash(card.fates)
      ensures card.Due() == old(card.Due())
      ensures old(card.fates) == [] ==> card.fates == [] && f == Well
    {
      hide NoCrash, FailsIn, Card.Due;
      ghost var before := card.files;
      stage2Active, active := false, false;
      f := card.WriteNew(Stage2Temporary, stage2);
      if !f.Well? {
        return;
      }
      f := card.WriteNew(Temporary, bootstrap);
      if !f.Well? {
        return;
      }
      f := card.Rename(Stage2Temporary, Stage2);
      if !f.Well? {
        return;
      }
      stage2Active := true;
      f := card.Sync();
      if !f.Well? {
        return;
      }
      f := card.Rename(Temporary, Active);
      if !f.Well? {
        return;
      }
      active := true;
      f := card.Sync();
      if !f.Well? {
        return;
      }
      OneArmed(selects, before, card.files, STAGED);
      if Get(card.files, Stage2) != Some(stage2) || Get(card.files, Active) != Some(bootstrap)
         || !OnlyActiveSelected(selects, card.files) {
        return Fails(None), stage2Active, active;
      }
    }

    /** Taken back in the opposite order: the armed name goes before the file it needs. */
    method StageUndo(ghost bootstrap: Bytes, ghost stage2: Bytes, stage2Active: bool, active: bool) returns (f: Fate)
      requires ArmedWithStage2(bootstrap, stage2, card.files) && (active ==> stage2Active)
      requires !active ==> Active !in card.files
      requires !stage2Active ==> Stage2 !in card.files
      modifies card
      ensures Keeps(old(card.files), card.files, {Active, Stage2}) && ArmedWithStage2(bootstrap, stage2, card.files)
      ensures f.Well? ==> Active !in card.files && Stage2 !in card.files
      ensures card.failures == if f.Fails? then old(card.failures) + 1 else old(card.failures)
      ensures NoCrash(old(card.fates)) ==> !f.Crashes? && NoCrash(card.fates)
      ensures card.Due() == old(card.Due())
      ensures old(card.fates) == [] ==> card.fates == [] && f == Well
    {
      f := Well;
      if active {
        f := card.Discard(Active);
        Reads(card.files);
        if !f.Well? {
          return;
        }
      }
      if stage2Active {
        f := card.Discard(Stage2);
        Reads(card.files);
      }
    }

    /** The temporaries go, whatever else happened. */
    method Tidy() returns (f: Fate)
      modifies card
      ensures Keeps(old(card.files), card.files, {Temporary, Stage2Temporary})
      ensures f.Well? || Get(old(card.files), Temporary).None? ==> Get(card.files, Temporary).None?
      ensures f.Well? || Get(old(card.files), Stage2Temporary).None? ==> Get(card.files, Stage2Temporary).None?
      ensures card.failures == if f.Fails? then old(card.failures) + 1 else old(card.failures)
      ensures NoCrash(old(card.fates)) ==> !f.Crashes? && NoCrash(card.fates)
      ensures card.Due() == old(card.Due())
      ensures old(card.fates) == [] ==> card.fates == [] && f == Well
    {
      f := card.Discard(Stage2Temporary);
      if f.Well? {
        f := card.Discard(Temporary);
      }
    }

    /** Stage 2 before the bootstrap on the way in, and after it on the way out. */
    method Stage(bootstrap: Bytes, stage2: Bytes) returns (outcome: CardOutcome, ghost staged: bool)
      modifies card
      ensures outcome == Refused <==>
                || Active in old(card.files) || Stage2 in old(card.files) || Temporary in old(card.files)
                || Stage2Temporary in old(card.files)
                || (exists s :: selects(s) && Other(s) in old(card.files))
      ensures outcome == Refused ==> card.files == old(card.files)
      ensures Keeps(old(card.files), card.files, STAGED)
      ensures outcome != Refused ==> ArmedWithStage2(bootstrap, stage2, card.files)
      ensures outcome == Done ==> staged
      ensures staged ==> card.files == old(card.files)[Stage2 := stage2][Active := bootstrap]
      ensures outcome == Failed && !staged && card.failures == old(card.failures) + 1 ==> card.files == old(card.files)
      ensures NoCrash(old(card.fates)) ==> outcome != Crashed
      ensures card.failures <= old(card.failures) + FailsIn(old(card.fates))
      ensures OneFails(old(card.fates)) && !staged ==> card.files == old(card.files)
      ensures old(card.fates) == [] && outcome != Refused ==> outcome == Done
    {
      ghost var before := card.files;
      SelectionExactly(selects, before);
      if !StageFit(selects, card.files) {
        return Refused, false;
      }
      Reads(before);
      var f, stage2Active, active := StageAttempt(bootstrap, stage2);
      Reads(card.files);
      staged := f.Well?;
      if f.Crashes? {
        return Crashed, false;
      }
      var u := Well;
      if f.Fails? {
        ghost var attempted := card.files;
        u := StageUndo(bootstrap, stage2, stage2Active, active);
        StagedOn(before, attempted, card.files);
        if u.Crashes? {
          return Crashed, false;
        }
      }
      ghost var undone := card.files;
      var t := Tidy();
      Tidied(before, undone, card.files, bootstrap, stage2, staged, t.Well?);
      outcome := if t.Crashes? then Crashed else if t.Well? && f.Well? then Done else Failed;
    }

    /** The passive package takes the armed name; anything wrong before the end, and it goes back. */
    method Activate(bootstrap: Bytes, stage2: Option<Bytes>) returns (outcome: CardOutcome)
      modifies card
      ensures outcome == Refused <==>
                || Active in old(card.files) || Get(old(card.files), Passive) != Some(bootstrap)
                || (stage2.Some? && Get(old(card.files), Stage2) != stage2)
                || (exists s :: selects(s) && Other(s) in old(card.files))
      ensures outcome == Refused ==> card.files == old(card.files)
      ensures outcome != Refused ==>
                || Switched(old(card.files), card.files, bootstrap, true)
                || Switched(old(card.files), card.files, bootstrap, false)
      ensures outcome == Done ==> card.files == (old(card.files) - {Passive})[Active := bootstrap]
      ensures outcome == Failed && card.failures == old(card.failures) + 1 ==> card.files == old(card.files)
      ensures NoCrash(old(card.fates)) ==> outcome != Crashed
      ensures card.failures <= old(card.failures) + FailsIn(old(card.fates))
      ensures OneFails(old(card.fates)) && outcome != Done ==> card.files == old(card.files)
      ensures old(card.fates) == [] ==> card.fates == [] && (outcome != Refused ==> outcome == Done)
    {
      hide NothingSelected, OnlyActiveSelected, OneFails, FailsIn, NoCrash, Card.Due;
      Spending(card);
      ghost var before := card.files;
      SelectionExactly(selects, before);
      if !ActivateFit(selects, card.files, bootstrap, stage2) {
        return Refused;
      }
      NotArmed(selects, before);
      var activated := false;
      var f := card.Rename(Passive, Active);
      if f.Well? {
        activated := true;
        f := card.Sync();
      }
      if f.Well? {
        OneArmed(selects, before, card.files, {Active, Passive});
        SwitchedIs(before, card.files, (before - {Passive})[Active := bootstrap]);
        if Get(card.files, Active) != Some(bootstrap) || !OnlyActiveSelected(selects, card.files) {
          return Failed;
        }
        Spending(card);
        return Done;
      }
      if f.Fails? && activated {
        f := card.Rename(Active, Passive);
        SwitchedBack(before, card.files);
        if f.Well? {
          f := card.Sync();
        }
        Spending(card);
        return if f.Crashes? then Crashed else Failed;
      }
      Spending(card);
      outcome := After(f);
    }

    /** The old passive file aside, and the armed name over to the passive one. */
    method Withdraw(ghost bootstrap: Bytes, existing: Option<Bytes>) returns (f: Fate, rollback: bool, gone: bool)
      requires Get(card.files, Active) == Some(bootstrap) && Get(card.files, Passive) == existing
      requires Get(card.files, Rollback).None?
      modifies card
      ensures Keeps(old(card.files), card.files, SWITCHED)
      ensures Get(card.files, Active) == if gone then None else Some(bootstrap)
      ensures Get(card.files, Passive) == if gone then Some(bootstrap) else if rollback then None else existing
      ensures Get(card.files, Rollback) == if rollback then existing else None
      ensures (rollback ==> existing.Some?) && (gone && existing.Some? ==> rollback) && (f.Well? ==> gone)
      ensures existing.Some? ==> (FailsAfter(old(card.fates), 5) <==> f.Well? && FailsAfter(card.fates, 1))
      ensures old(card.fates) == LAST_SYNC_ONLY && existing.Some? ==> card.fates == [Well, Fails(None)]
      ensures card.failures == if f.Fails? then old(card.failures) + 1 else old(card.failures)
      ensures NoCrash(old(card.fates)) ==> !f.Crashes? && NoCrash(card.fates)
      ensures card.Due() == old(card.Due())
      ensures old(card.fates) == [] ==> card.fates == [] && f == Well
    {
      hide NoCrash, FailsIn, Card.Due, FailsAfter;
      rollback, gone := false, false;
      FailsOn(card.fates, 5);
      if existing.Some? {
        f := card.Rename(Passive, Rollback);
        if !f.Well? {
          return;
        }
        rollback := true;
        FailsOn(card.fates, 4);
        f := card.Sync();
        if !f.Well? {
          return;
        }
      }
      FailsOn(card.fates, 3);
      f := card.Rename(Active, Passive);
      if !f.Well? {
        return;
      }
      gone := true;
      FailsOn(card.fates, 2);
      f := card.Sync();
    }

    /** The steps of a deactivation. `dropped`: the copy of the old passive file is gone again. */
    method DeactivateAttempt(bootstrap: Bytes, stage2: Bytes, existing: Option<Bytes>)
      returns (f: Fate, rollback: bool, gone: bool, dropped: bool)
      requires DeactivateFit(selects, card.files, bootstrap, stage2, existing)
      modifies card
      ensures Keeps(old(card.files), card.files, SWITCHED)
      ensures Get(card.files, Active) == if gone then None else Some(bootstrap)
      ensures Get(card.files, Passive) == if gone then Some(bootstrap) else if rollback then None else existing
      ensures Get(card.files, Rollback) == if rollback then existing else None
      ensures (rollback || dropped ==> existing.Some?) && !(rollback && dropped)
      ensures (gone && existing.Some? ==> rollback || dropped) && (dropped ==> gone)
      ensures f.Well? ==> gone && !rollback
      ensures f.Fails? && dropped <==> existing.Some? && LastSyncFails(old(card.fates))
      ensures old(card.fates) == LAST_SYNC_ONLY && existing.Some? ==> card.fates == []
      ensures card.failures == if f.Fails? then old(card.failures) + 1 else old(card.failures)
      ensures NoCrash(old(card.fates)) ==> !f.Crashes? && NoCrash(card.fates)
      ensures card.Due() == old(card.Due())
      ensures old(card.fates) == [] ==> card.fates == [] && f == Well
    {
      hide NoCrash, FailsIn, Card.Due, FailsAfter;
      ghost var before := card.files;
      dropped := false;
      Reads(before);
      LastSyncOnlyFails();
      f, rollback, gone := Withdraw(bootstrap, existing);
      if !f.Well? {
        return;
      }
      FailsOn(card.fates, 1);
      NoneArmed(selects, before, card.files);
      if Get(card.files, Passive) != Some(bootstrap) || Get(card.files, Stage2) != Some(stage2)
         || Active in card.files || !NothingSelected(selects, card.files) {
        return Fails(None), rollback, gone, dropped;
      }
      if rollback {
        f := card.Unlink(Rollback);
        if !f.Well? {
          return;
        }
        rollback, dropped := false, true;
        FailsOn(card.fates, 0);
        f := card.Sync();
      }
    }

    method DeactivateUndo(ghost bootstrap: Bytes, ghost existing: Option<Bytes>, rollback: bool, gone: bool)
      returns (f: Fate)
      requires Get(card.files, Active) == if gone then None else Some(bootstrap)
      requires Get(card.files, Passive) == if gone then Some(bootstrap) else if rollback then None else existing
      requires Get(card.files, Rollback) == (if rollback then existing else None) && (rollback ==> existing.Some?)
      modifies card
      ensures Keeps(old(card.files), card.files, SWITCHED)
      ensures Get(card.files, Active) == Some(bootstrap) || Get(card.files, Passive) == Some(bootstrap)
      ensures f.Well? ==> Get(card.files, Active) == Some(bootstrap) && Get(card.files, Rollback).None?
                          && Get(card.files, Passive) == if rollback || !gone then existing else None
      ensures old(card.fates) == [] ==> f == Well
      ensures card.failures == if f.Fails? then old(card.failures) + 1 else old(card.failures)
      ensures NoCrash(old(card.fates)) ==> !f.Crashes? && NoCrash(card.fates)
      ensures card.Due() == old(card.Due())
    {
      hide NoCrash, FailsIn, Card.Due;
      f := Well;
      if gone {
        f := card.Rename(Passive, Active);
        if !f.Well? {
          return;
        }
        f := card.Sync();
        if !f.Well? {
          return;
        }
      }
      if rollback {
        f := card.Rename(Rollback, Passive);
        if !f.Well? {
          return;
        }
        f := card.Sync();
      }
    }

    /**
     * The bootstrap goes passive and stage 2 stays. One failing step leaves the card as it was, unless it is the sync
     * after the old passive file was finally removed: then the bootstrap is armed again and that file is gone.
     */
    method Deactivate(bootstrap: Bytes, stage2: Bytes, existing: Option<Bytes>) returns (outcome: CardOutcome,
                      ghost dropped: bool)
      modifies card
      ensures outcome == Refused <==>
                || Get(old(card.files), Active) != Some(bootstrap) || Rollback in old(card.files)
                || Get(old(card.files), Stage2) != Some(stage2) || Get(old(card.files), Passive) != existing
                || (exists s :: selects(s) && Other(s) in old(card.files))
      ensures outcome == Refused ==> card.files == old(card.files)
      ensures Keeps(old(card.files), card.files, SWITCHED)
      ensures outcome != Refused ==> Get(card.files, Active) == Some(bootstrap) || Get(card.files, Passive) == Some(bootstrap)
      ensures outcome == Done ==> card.files == (old(card.files) - {Active})[Passive := bootstrap]
      ensures outcome == Failed ==> (dropped <==> existing.Some? && LastSyncFails(old(card.fates)))
      ensures outcome == Failed && card.failures == old(card.failures) + 1 ==>
                card.files == if dropped then old(card.files) - {Passive} else old(card.files)
      ensures NoCrash(old(card.fates)) ==> outcome != Crashed
      ensures card.failures <= old(card.failures) + FailsIn(old(card.fates))
      ensures OneFails(old(card.fates)) && outcome != Done && outcome != Refused ==>
                && (dropped <==> existing.Some? && LastSyncFails(old(card.fates)))
                && card.files == if dropped then old(card.files) - {Passive} else old(card.files)
      ensures existing.Some? && LastSyncFails(old(card.fates)) && outcome != Refused ==>
                outcome in {Failed, Crashed} && dropped
      ensures existing.Some? && old(card.fates) == LAST_SYNC_ONLY && outcome != Refused ==>
                outcome == Failed && card.failures == old(card.failures) + 1 && card.files == old(card.files) - {Passive}
      ensures old(card.fates) == [] ==> card.fates == [] && (outcome != Refused ==> outcome == Done)
    {
      ghost var before := card.files;
      dropped := false;
      LastSyncOnlyFails();
      SelectionExactly(selects, before);
      if !DeactivateFit(selects, card.files, bootstrap, stage2, existing) {
        return Refused, false;
      }
      var f, rollback, gone, away := DeactivateAttempt(bootstrap, stage2, existing);
      dropped := away;
      ghost var attempted := card.files;
      if f.Fails? {
        var u := DeactivateUndo(bootstrap, existing, rollback, gone);
        if u.Well? {
          KnownBy(before, attempted, card.files, if away then before - {Passive} else before);
        }
        return if u.Crashes? then Crashed else Failed, away;
      }
      if f.Well? {
        KnownBy(before, attempted, card.files, (before - {Active})[Passive := bootstrap]);
      }
      outcome := After(f);
    }

    /** Activation and deactivation undo each other on a card with no other passive file in the way. */
    method ThereAndBack(bootstrap: Bytes, stage2: Bytes) returns (there: CardOutcome, back: CardOutcome)
      modifies card
      ensures there == back == Done ==> card.files == old(card.files)
      ensures (old(card.fates) == [] && Rollback !in old(card.files)
               && ActivateFit(selects, old(card.files), bootstrap, Some(stage2))) ==> there == back == Done
    {
      ghost var before := card.files;
      there := Activate(bootstrap, Some(stage2));
      back := Refused;
      if there == Done {
        NotArmed(selects, before);
        OneArmed(selects, before, card.files, {Active, Passive});
        Reads(card.files);
        ghost var dropped;
        back, dropped := Deactivate(bootstrap, stage2, None);
        if back == Done {
          Inverse(before, bootstrap);
        }
      }
    }

    method BackAndThere(bootstrap: Bytes, stage2: Bytes) returns (back: CardOutcome, there: CardOutcome)
      modifies card
      ensures back == there == Done ==> card.files == old(card.files)
      ensures (old(card.fates) == [] && DeactivateFit(selects, old(card.files), bootstrap, stage2, None)) ==>
                back == there == Done
    {
      ghost var before := card.files;
      ghost var dropped;
      back, dropped := Deactivate(bootstrap, stage2, None);
      there := Refused;
      if back == Done {
        Reads(before);
        Reads(card.files);
        NoneArmed(selects, before, card.files);
        there := Activate(bootstrap, Some(stage2));
      }
    }

    method PassiveAttempt(package: Bytes) returns (f: Fate, activated: bool)
      requires Passive !in card.files && Temporary !in card.files
      modifies card
      ensures Keeps(old(card.files), card.files, {Passive, Temporary}) && (f.Well? ==> activated)
      ensures Get(card.files, Passive) == if activated then Some(package) else None
      ensures activated ==> Get(card.files, Temporary).None?
      ensures card.failures == if f.Fails? then old(card.failures) + 1 else old(card.failures)
      ensures NoCrash(old(card.fates)) ==> !f.Crashes? && NoCrash(card.fates)
      ensures card.Due() == old(card.Due())
      ensures old(card.fates) == [] ==> card.fates == [] && f == Well
    {
      hide NoCrash, FailsIn, Card.Due;
      activated := false;
      f := card.WriteNew(Temporary, package);
      if !f.Well? {
        return;
      }
      f := card.Rename(Temporary, Passive);
      if !f.Well? {
        return;
      }
      activated := true;
      f := card.Sync();
      if f.Well? && Get(card.files, Passive) != Some(package) {
        return Fails(None), activated;
      }
    }

    /** A capture package staged under its passive name, which no step of it ever arms. */
    method StagePassive(package: Bytes) returns (outcome: CardOutcome, ghost staged: bool)
      modifies card
      ensures outcome == Refused <==>
                || Active in old(card.files) || Passive in old(card.files) || Temporary in old(card.files)
                || (exists s :: selects(s) && Other(s) in old(card.files))
      ensures outcome == Refused ==> card.files == old(card.files)
      ensures Keeps(old(card.files), card.files, {Passive, Temporary})
      ensures outcome != Refused ==> Get(card.files, Passive) in {None, Some(package)}
      ensures outcome == Done ==> staged
      ensures staged ==> card.files == old(card.files)[Passive := package]
      ensures outcome == Failed && !staged && card.failures == old(card.failures) + 1 ==> card.files == old(card.files)
      ensures NoCrash(old(card.fates)) ==> outcome != Crashed
      ensures card.failures <= old(card.failures) + FailsIn(old(card.fates))
      ensures OneFails(old(card.fates)) && !staged ==> card.files == old(card.files)
      ensures old(card.fates) == [] && outcome != Refused ==> outcome == Done
    {
      hide NoCrash, FailsIn, OneFails, Card.Due;
      Spending(card);
      ghost var before := card.files;
      staged := false;
      SelectionExactly(selects, before);
      if !PassiveStageFit(selects, card.files) {
        return Refused, false;
      }
      var u := Well;
      var f, activated := PassiveAttempt(package);
      staged := f.Well?;
      if f.Fails? && activated {
        u := card.Discard(Passive);
        if u.Well? {
          u := card.Sync();
        }
      }
      Spending(card);
      if f.Crashes? || u.Crashes? {
        return Crashed, staged;
      }
      ghost var undone := card.files;
      var t := card.Discard(Temporary);
      PassiveStaged(before, undone, card.files, package, t.Well?);
      Spending(card);
      outcome := if t.Crashes? then Crashed else if t.Well? && f.Well? then Done else Failed;
    }
  }

  predicate PassiveStageFit(selects: string -> bool, files: Files<Name>) {
    NothingSelected(selects, files) && Passive !in files && Temporary !in files
  }

  lemma PassiveStaged(before: Files<Name>, undone: Files<Name>, after: Files<Name>, package: Bytes, tidy: bool)
    requires Passive !in before && Temporary !in before && Keeps(before, undone, {Passive, Temporary})
    requires if tidy then Updated(undone, after, Temporary, None) else after == undone
    ensures tidy && Get(undone, Passive).None? ==> after == before
    ensures (tidy || Get(undone, Temporary).None?) && Get(undone, Passive) == Some(package) ==>
              after == before[Passive := package]
  {
    Reads(before);
    if tidy && Get(undone, Passive).None? {
      forall n: Name ensures Get(after, n) == Get(before, n) {
      }
      SameFiles(after, before);
    }
    if (tidy || Get(undone, Temporary).None?) && Get(undone, Passive) == Some(package) {
      var renewed := before[Passive := package];
      forall n: Name ensures Get(after, n) == Get(renewed, n) {
      }
      SameFiles(after, renewed);
    }
  }

  lemma Reads(files: Files<Name>)
    ensures forall n: Name :: n in files <==> Get(files, n).Some?
  {
  }

  lemma StagedOn(before: Files<Name>, mid: Files<Name>, after: Files<Name>)
    requires Keeps(before, mid, STAGED) && Keeps(mid, after, {Active, Stage2})
    ensures Keeps(before, after, STAGED)
  {
  }

  lemma OneArmed(selects: string -> bool, before: Files<Name>, after: Files<Name>, changed: set<Name>)
    requires NothingSelected(selects, before) && Keeps(before, after, changed) && Active in after
    requires changed <= STAGED + {Passive}
    ensures OnlyActiveSelected(selects, after)
  {
    forall n <- after | Selected(selects, n) ensures n == Active {
      assert n != Active ==> Get(after, n) == Get(before, n);
    }
  }

  lemma NoneArmed(selects: string -> bool, before: Files<Name>, after: Files<Name>)
    requires OnlyActiveSelected(selects, before) && Keeps(before, after, SWITCHED) && Active !in after
    ensures NothingSelected(selects, after)
  {
    forall n <- after ensures !Selected(selects, n) {
      assert n !in SWITCHED ==> Get(after, n) == Get(before, n);
    }
  }

  lemma NotArmed(selects: string -> bool, files: Files<Name>)
    requires NothingSelected(selects, files)
    ensures Active !in files && Get(files, Active).None?
  {
  }

  lemma Tidied(before: Files<Name>, undone: Files<Name>, after: Files<Name>, bootstrap: Bytes, stage2: Bytes,
               staged: bool, tidy: bool)
    requires Stage2Temporary !in before && Temporary !in before && Stage2 !in before && Active !in before
    requires Keeps(before, undone, STAGED) && Keeps(undone, after, {Temporary, Stage2Temporary})
    requires ArmedWithStage2(bootstrap, stage2, undone)
    requires staged ==> Get(undone, Active) == Some(bootstrap) && Get(undone, Stage2) == Some(stage2)
    requires tidy ==> Get(after, Temporary).None? && Get(after, Stage2Temporary).None?
    ensures Keeps(before, after, STAGED) && ArmedWithStage2(bootstrap, stage2, after)
    ensures staged && Get(after, Temporary).None? && Get(after, Stage2Temporary).None? ==>
              after == before[Stage2 := stage2][Active := bootstrap]
    ensures tidy && Active !in undone && Stage2 !in undone ==> after == before
  {
    Reads(undone);
    Reads(after);
    Reads(before);
    var renewed := before[Stage2 := stage2][Active := bootstrap];
    forall n: Name ensures Get(renewed, n) == if n == Active then Some(bootstrap)
                                              else if n == Stage2 then Some(stage2) else Get(before, n) {
    }
    if staged && Get(after, Temporary).None? && Get(after, Stage2Temporary).None? {
      forall n: Name ensures Get(after, n) == Get(renewed, n) {
      }
      SameFiles(after, renewed);
    }
    if tidy && Active !in undone && Stage2 !in undone {
      forall n: Name ensures Get(after, n) == Get(before, n) {
      }
      SameFiles(after, before);
    }
  }

  lemma SwitchedIs(before: Files<Name>, after: Files<Name>, right: Files<Name>)
    requires Passive in before && Active !in before && Renamed(before, after, Passive, Active)
    requires right == (before - {Passive})[Active := before[Passive]]
    ensures after == right
  {
    forall n: Name ensures Get(after, n) == Get(right, n) {
    }
    SameFiles(after, right);
  }

  lemma SwitchedBack(before: Files<Name>, after: Files<Name>)
    requires Passive in before && Active !in before
    ensures (forall n: Name :: Get(after, n) == Get(before, n)) ==> after == before
  {
    if forall n: Name :: Get(after, n) == Get(before, n) {
      SameFiles(after, before);
    }
  }

  lemma KnownBy(before: Files<Name>, mid: Files<Name>, after: Files<Name>, right: Files<Name>)
    requires Keeps(before, mid, SWITCHED) && Keeps(mid, after, SWITCHED) && Keeps(before, right, SWITCHED)
    requires forall n <- SWITCHED :: Get(after, n) == Get(right, n)
    ensures after == right
  {
    forall n: Name ensures Get(after, n) == Get(right, n) {
    }
    SameFiles(after, right);
  }

  lemma Inverse(before: Files<Name>, bootstrap: Bytes)
    requires Passive in before && before[Passive] == bootstrap && Active !in before
    ensures ((before - {Passive})[Active := bootstrap] - {Active})[Passive := bootstrap] == before
  {
  }
}
