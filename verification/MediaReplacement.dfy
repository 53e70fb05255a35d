/** The replacement of a passive bootstrap and its stage 2, with paired rollback (installer/media_replacement.py). */
module MediaReplacement {
  import opened Common
  import opened MediaSteps
  import opened MediaNames

  /** The two old files and the two new ones. */
  datatype Pair = Pair(oldBootstrap: Bytes, oldStage2: Bytes, newBootstrap: Bytes, newStage2: Bytes)

  /** How far the replacement has got. */
  datatype Flags = Flags(rollback: bool, stage2Rollback: bool, stage2Active: bool, bootstrapActive: bool,
                         committed: bool)

  const NONE := Flags(false, false, false, false, false)

  const OWN: set<Name> := {Passive, Stage2, Temporary, Stage2Temporary, Rollback, Stage2Rollback}

  /** The flags say exactly what is where, until the new pair is committed. */
  ghost predicate Tells(p: Pair, files: Files<Name>, g: Flags) {
    && Get(files, Passive) == (if g.bootstrapActive then Some(p.newBootstrap)
                               else if g.rollback then None else Some(p.oldBootstrap))
    && Get(files, Stage2) == (if g.stage2Active then Some(p.newStage2)
                              else if g.stage2Rollback then None else Some(p.oldStage2))
    && (!g.committed ==>
          && Get(files, Rollback) == (if g.rollback then Some(p.oldBootstrap) else None)
          && Get(files, Stage2Rollback) == (if g.stage2Rollback then Some(p.oldStage2) else None))
    && (g.committed ==> g.bootstrapActive && g.stage2Active)
    && (g.bootstrapActive ==> g.rollback) && (g.stage2Active ==> g.stage2Rollback)
  }

  /** The new files wait under their temporary names until they are put in place. */
  ghost predicate Ready(p: Pair, files: Files<Name>, g: Flags) {
    && Get(files, Temporary) == (if g.bootstrapActive then None else Some(p.newBootstrap))
    && Get(files, Stage2Temporary) == (if g.stage2Active then None else Some(p.newStage2))
  }

  /** Both old files still exist, under their own names or as rollback copies. */
  ghost predicate OldKept(p: Pair, files: Files<Name>) {
    && (Get(files, Passive) == Some(p.oldBootstrap) || Get(files, Rollback) == Some(p.oldBootstrap))
    && (Get(files, Stage2) == Some(p.oldStage2) || Get(files, Stage2Rollback) == Some(p.oldStage2))
  }

  ghost predicate NewInPlace(p: Pair, files: Files<Name>) {
    Get(files, Passive) == Some(p.newBootstrap) && Get(files, Stage2) == Some(p.newStage2)
  }

  /** What the replacement wants to find. */
  predicate Fit(p: Pair, files: Files<Name>) {
    && Passive in files && files[Passive] == p.oldBootstrap && Stage2 in files && files[Stage2] == p.oldStage2
    && Temporary !in files && Stage2Temporary !in files && Rollback !in files && Stage2Rollback !in files
    && p.oldBootstrap != p.newBootstrap
  }

  class Replacement {
    const selects: string -> bool
    const card: Card<Name>

    constructor (selects: string -> bool, card: Card<Name>)
      ensures this.selects == selects && this.card == card
    {
      this.selects, this.card := selects, card;
    }

    /** Both new files, written and read back under temporary names. */
    method Prepare(p: Pair) returns (f: Fate)
      requires Fit(p, card.files)
      modifies card
      ensures Keeps(old(card.files), card.files, OWN) && Tells(p, card.files, NONE)
      ensures f.Well? ==> Ready(p, card.files, NONE)
      ensures card.failures == if f.Fails? then old(card.failures) + 1 else old(card.failures)
      ensures NoCrash(old(card.fates)) ==> !f.Crashes? && NoCrash(card.fates)
      ensures card.Due() == old(card.Due())
      ensures old(card.fates) == [] ==> card.fates == [] && f == Well
    {
      f := card.WriteNew(Temporary, p.newBootstrap);
      if f.Well? {
        f := card.WriteNew(Stage2Temporary, p.newStage2);
      }
    }

    /** Both old files, renamed away one after the other. */
    method SetAside(p: Pair) returns (f: Fate, g: Flags)
      requires Tells(p, card.files, NONE) && Ready(p, card.files, NONE)
      modifies card
      ensures Keeps(old(card.files), card.files, OWN) && Tells(p, card.files, g) && Ready(p, card.files, g)
      ensures !g.stage2Active && !g.bootstrapActive && !g.committed && (f.Well? ==> g.rollback && g.stage2Rollback)
      ensures card.failures == if f.Fails? then old(card.failures) + 1 else old(card.failures)
      ensures NoCrash(old(card.fates)) ==> !f.Crashes? && NoCrash(card.fates)
      ensures card.Due() == old(card.Due())
      ensures old(card.fates) == [] ==> card.fates == [] && f == Well
    {
      hide NoCrash, FailsIn, Card.Due;
      g := NONE;
      f := card.Rename(Passive, Rollback);
      if !f.Well? {
        return;
      }
      g := g.(rollback := true);
      f := card.Sync();
      if !f.Well? {
        return;
      }
      f := card.Rename(Stage2, Stage2Rollback);
      if !f.Well? {
        return;
      }
      g := g.(stage2Rollback := true);
      f := card.Sync();
    }

    /** Stage 2 first, the bootstrap that would use it second. */
    method PutInPlace(p: Pair, aside: Flags) returns (f: Fate, g: Flags)
      requires aside == Flags(true, true, false, false, false) && Tells(p, card.files, aside) && Ready(p, card.files, aside)
      modifies card
      ensures Keeps(old(card.files), card.files, OWN) && Tells(p, card.files, g) && Ready(p, card.files, g)
      ensures g.rollback && g.stage2Rollback && !g.committed && (f.Well? ==> g.stage2Active && g.bootstrapActive)
      ensures card.failures == if f.Fails? then old(card.failures) + 1 else old(card.failures)
      ensures NoCrash(old(card.fates)) ==> !f.Crashes? && NoCrash(card.fates)
      ensures card.Due() == old(card.Due())
      ensures old(card.fates) == [] ==> card.fates == [] && f == Well
    {
      hide NoCrash, FailsIn, Card.Due;
      g := aside;
      f := card.Rename(Stage2Temporary, Stage2);
      if !f.Well? {
        return;
      }
      g := g.(stage2Active := true);
      f := card.Sync();
      if !f.Well? {
        return;
      }
      f := card.Rename(Temporary, Passive);
      if !f.Well? {
        return;
      }
      g := g.(bootstrapActive := true);
      f := card.Sync();
    }

    /** The new pair is read back and the selector found empty; that commits it. */
    method Commit(p: Pair, placed: Flags) returns (f: Fate, g: Flags)
      requires placed == Flags(true, true, true, true, false) && Tells(p, card.files, placed)
      modifies card`fates, card`failures
      ensures g == placed.(committed := f.Well?)
      ensures card.failures == if f.Fails? then old(card.failures) + 1 else old(card.failures)
      ensures NoCrash(old(card.fates)) ==> !f.Crashes? && NoCrash(card.fates)
      ensures NothingSelected(selects, card.files) ==> card.Due() == old(card.Due())
      ensures f.Well? ==> NothingSelected(selects, card.files)
      ensures old(card.fates) == [] ==> card.fates == [] && !f.Crashes? && (f.Well? <==> NothingSelected(selects, card.files))
    {
      g := placed;
      if Get(card.files, Passive) != Some(p.newBootstrap) || Get(card.files, Stage2) != Some(p.newStage2) {
        return Fails(None), g;
      }
      f := card.Sync();
      if f.Well? && !NothingSelected(selects, card.files) {
        f := card.Refuse(f);
      }
      g := g.(committed := f.Well?);
    }

    /** An old file goes; a failure to remove it is only remembered. */
    method Drop(name: Name) returns (f: Fate)
      modifies card
      ensures Keeps(old(card.files), card.files, {name})
      ensures f.Well? ==> Get(card.files, name).None?
      ensures card.failures == if f.Fails? then old(card.failures) + 1 else old(card.failures)
      ensures NoCrash(old(card.fates)) ==> !f.Crashes? && NoCrash(card.fates)
      ensures name in old(card.files) ==> card.Due() == old(card.Due())
      ensures old(card.fates) == [] && name in old(card.files) ==> card.fates == [] && f == Well
    {
      f := card.Unlink(name);
      if f.Well? {
        f := card.Sync();
      }
    }

    /** The whole attempt; after the commit the old files go. */
    method Attempt(p: Pair) returns (f: Fate, g: Flags)
      requires Fit(p, card.files)
      modifies card
      ensures Keeps(old(card.files), card.files, OWN) && Tells(p, card.files, g)
      ensures f.Well? ==> g.committed && Get(card.files, Rollback).None? && Get(card.files, Stage2Rollback).None?
      ensures g.committed ==> NothingSelected(selects, old(card.files))
      ensures card.failures >= if f.Fails? then old(card.failures) + 1 else old(card.failures)
      ensures !g.committed ==> card.failures == if f.Fails? then old(card.failures) + 1 else old(card.failures)
      ensures f.Well? ==> card.failures == old(card.failures)
      ensures NoCrash(old(card.fates)) ==> !f.Crashes? && NoCrash(card.fates)
      ensures NothingSelected(selects, old(card.files)) ==> card.Due() == old(card.Due())
      ensures old(card.fates) == [] ==>
                card.fates == [] && !f.Crashes? && (f.Well? <==> NothingSelected(selects, old(card.files)))
    {
      ghost var before := card.files;
      hide *;
      g := NONE;
      f := Prepare(p);
      SelectionKept(selects, before, card.files);
      if !f.Well? {
        return;
      }
      ghost var prepared := card.files;
      f, g := SetAside(p);
      KeepsOn(before, prepared, card.files);
      if !f.Well? {
        return;
      }
      ghost var aside := card.files;
      f, g := PutInPlace(p, g);
      KeepsOn(before, aside, card.files);
      if !f.Well? {
        return;
      }
      SelectionKept(selects, before, card.files);
      f, g := Commit(p, g);
      PlacedTells(p, card.files, g);
      if !f.Well? {
        return;
      }
      ghost var placed := card.files;
      var f1 := Drop(Rollback);
      Dropped(p, before, placed, card.files, g, Rollback);
      if f1.Crashes? {
        return f1, g;
      }
      ghost var dropped := card.files;
      f := Drop(Stage2Rollback);
      Dropped(p, before, dropped, card.files, g, Stage2Rollback);
      if f.Well? {
        f := f1;
      }
    }

    /** The old files back under their names, each over a new one that was put there. */
    method Undo(p: Pair, g: Flags) returns (f: Fate)
      requires Tells(p, card.files, g) && !g.committed
      modifies card
      ensures Keeps(old(card.files), card.files, OWN) && OldKept(p, card.files)
      ensures f.Well? ==> Tells(p, card.files, NONE)
      ensures card.failures == if f.Fails? then old(card.failures) + 1 else old(card.failures)
      ensures NoCrash(old(card.fates)) ==> !f.Crashes? && NoCrash(card.fates)
      ensures card.Due() == old(card.Due())
      ensures old(card.fates) == [] ==> card.fates == [] && f == Well
    {
      hide NoCrash, FailsIn, Card.Due;
      f := Well;
      if g.rollback {
        if g.bootstrapActive {
          f := card.Discard(Passive);
          if !f.Well? {
            return;
          }
        }
        f := card.Rename(Rollback, Passive);
        if !f.Well? {
          return;
        }
        f := card.Sync();
        if !f.Well? {
          return;
        }
      }
      if g.stage2Rollback {
        if g.stage2Active {
          f := card.Discard(Stage2);
          if !f.Well? {
            return;
          }
        }
        f := card.Rename(Stage2Rollback, Stage2);
        if !f.Well? {
          return;
        }
        f := card.Sync();
      }
    }

    /** The temporaries go, whatever else happened. */
    method Tidy() returns (f: Fate)
      modifies card
      ensures Keeps(old(card.files), card.files, {Temporary, Stage2Temporary})
      ensures f.Well? ==> Get(card.files, Temporary).None? && Get(card.files, Stage2Temporary).None?
      ensures card.failures == if f.Fails? then old(card.failures) + 1 else old(card.failures)
      ensures NoCrash(old(card.fates)) ==> !f.Crashes? && NoCrash(card.fates)
      ensures card.Due() == old(card.Due())
      ensures old(card.fates) == [] ==> card.fates == [] && f == Well
    {
      f := card.Discard(Temporary);
      if f.Well? {
        f := card.Discard(Stage2Temporary);
      }
    }

    /**
     * All or nothing: until the commit both old files exist, from it on both new ones are in place; one failing step
     * before the commit leaves the card as it was.
     */
    method Replace(p: Pair) returns (outcome: CardOutcome, ghost committed: bool)
      modifies card
      ensures outcome == Refused <==>
                || Get(old(card.files), Passive) != Some(p.oldBootstrap)
                || Get(old(card.files), Stage2) != Some(p.oldStage2) || p.oldBootstrap == p.newBootstrap
                || Temporary in old(card.files) || Stage2Temporary in old(card.files) || Rollback in old(card.files)
                || Stage2Rollback in old(card.files) || Active in old(card.files)
                || (exists s :: selects(s) && Other(s) in old(card.files))
      ensures outcome == Refused ==> card.files == old(card.files)
      ensures Keeps(old(card.files), card.files, OWN)
      ensures outcome != Refused ==> if committed then NewInPlace(p, card.files) else OldKept(p, card.files)
      ensures outcome == Done ==>
                committed && card.files == old(card.files)[Passive := p.newBootstrap][Stage2 := p.newStage2]
      ensures outcome == Failed && !committed && card.failures == old(card.failures) + 1 ==> card.files == old(card.files)
      ensures NoCrash(old(card.fates)) ==> outcome != Crashed
      ensures card.failures <= old(card.failures) + FailsIn(old(card.fates))
      ensures OneFails(old(card.fates)) && !committed ==> card.files == old(card.files)
      ensures old(card.fates) == [] && outcome != Refused ==> outcome == Done
    {
      ghost var before := card.files;
      committed := false;
      hide *;
      FitExactly(selects, p, card.files);
      if !Fit(p, card.files) || !NothingSelected(selects, card.files) {
        KeepsAll(before);
        return Refused, false;
      }
      Spending(card);
      var f, g := Attempt(p);
      committed := g.committed;
      TellsKept(p, card.files, g);
      if f.Crashes? {
        return Crashed, committed;
      }
      var u := Well;
      if f.Fails? && !g.committed {
        ghost var attempted := card.files;
        u := Undo(p, g);
        KeepsOn(before, attempted, card.files);
        if u.Crashes? {
          return Crashed, committed;
        }
      }
      ghost var undone := card.files;
      var t := Tidy();
      Tidied(p, before, undone, card.files);
      if t.Well? {
        Restored(p, before, undone, card.files);
      }
      Spending(card);
      outcome := if t.Crashes? then Crashed else if t.Well? && f.Well? then Done else Failed;
    }
  }

  lemma FitExactly(selects: string -> bool, p: Pair, files: Files<Name>)
    ensures Fit(p, files) && NothingSelected(selects, files) <==>
              && Get(files, Passive) == Some(p.oldBootstrap) && Get(files, Stage2) == Some(p.oldStage2)
              && p.oldBootstrap != p.newBootstrap && Temporary !in files && Stage2Temporary !in files
              && Rollback !in files && Stage2Rollback !in files && Active !in files
              && forall s | selects(s) :: Other(s) !in files
  {
    SelectionExactly(selects, files);
    hide NothingSelected;
  }

  lemma KeepsAll(files: Files<Name>)
    ensures Keeps(files, files, OWN)
  {
  }

  lemma KeepsOn(before: Files<Name>, mid: Files<Name>, after: Files<Name>)
    requires Keeps(before, mid, OWN) && Keeps(mid, after, OWN)
    ensures Keeps(before, after, OWN)
  {
  }

  /** None of the names in use here is one the loader selects. */
  lemma SelectionKept(selects: string -> bool, before: Files<Name>, after: Files<Name>)
    requires Keeps(before, after, OWN)
    ensures NothingSelected(selects, before) <==> NothingSelected(selects, after)
  {
    forall n | Selected(selects, n) ensures n in before <==> n in after {
      assert Get(after, n) == Get(before, n);
    }
  }

  lemma PlacedTells(p: Pair, files: Files<Name>, g: Flags)
    requires exists placed :: Tells(p, files, placed) && !placed.committed && g == placed.(committed := g.committed)
                              && placed.bootstrapActive && placed.stage2Active
    ensures Tells(p, files, g)
  {
  }

  lemma Dropped(p: Pair, before: Files<Name>, placed: Files<Name>, after: Files<Name>, g: Flags, name: Name)
    requires Keeps(before, placed, OWN) && Tells(p, placed, g) && g.committed
    requires name in {Rollback, Stage2Rollback} && Keeps(placed, after, {name})
    ensures Keeps(before, after, OWN) && Tells(p, after, g)
    ensures Get(placed, Rollback).None? && name != Rollback ==> Get(after, Rollback).None?
    ensures Get(placed, Stage2Rollback).Some? && name != Stage2Rollback ==> Stage2Rollback in after
  {
  }

  lemma TellsKept(p: Pair, files: Files<Name>, g: Flags)
    requires Tells(p, files, g)
    ensures if g.committed then NewInPlace(p, files) else OldKept(p, files)
  {
  }

  lemma Tidied(p: Pair, before: Files<Name>, undone: Files<Name>, after: Files<Name>)
    requires Keeps(before, undone, OWN) && Keeps(undone, after, {Temporary, Stage2Temporary})
    ensures Keeps(before, after, OWN)
    ensures NewInPlace(p, undone) ==> NewInPlace(p, after)
    ensures OldKept(p, undone) ==> OldKept(p, after)
  {
  }

  /** With all six names accounted for the card is known. */
  lemma Restored(p: Pair, before: Files<Name>, undone: Files<Name>, after: Files<Name>)
    requires Fit(p, before) && Keeps(before, undone, OWN) && Keeps(undone, after, {Temporary, Stage2Temporary})
    requires Get(after, Temporary).None? && Get(after, Stage2Temporary).None?
    ensures Tells(p, undone, NONE) ==> after == before
    ensures NewInPlace(p, undone) && Get(undone, Rollback).None? && Get(undone, Stage2Rollback).None? ==>
              after == before[Passive := p.newBootstrap][Stage2 := p.newStage2]
  {
    var renewed := before[Passive := p.newBootstrap][Stage2 := p.newStage2];
    forall n: Name ensures Get(renewed, n) == if n == Passive then Some(p.newBootstrap)
                                              else if n == Stage2 then Some(p.newStage2) else Get(before, n) {
    }
    if Tells(p, undone, NONE) {
      forall n: Name ensures Get(after, n) == Get(before, n) {
      }
      SameFiles(after, before);
    }
    if NewInPlace(p, undone) && Get(undone, Rollback).None? && Get(undone, Stage2Rollback).None? {
      forall n: Name ensures Get(after, n) == Get(renewed, n) {
      }
      SameFiles(after, renewed);
    }
  }
}
