/** Staging of an update package and its passivation (installer/media_packages.py). */
module MediaPackages {
  import opened Common
  import opened MediaSteps
  import opened MediaNames

  /* Staging. */

  /** How far staging has got; `there` is whether a package was staged before. */
  datatype Staging = Staging(there: bool, rollback: bool, active: bool, committed: bool)

  predicate StageFit(selects: string -> bool, files: Files<Name>) {
    && (NothingSelected(selects, files) || OnlyActiveSelected(selects, files))
    && Temporary !in files && Rollback !in files
  }

  /** The flags say what is under the armed name and under the rollback name. */
  ghost predicate StageTells(before: Option<Bytes>, package: Bytes, files: Files<Name>, g: Staging) {
    && g.there == before.Some? && (g.rollback ==> g.there) && (g.active && g.there && !g.committed ==> g.rollback)
    && Get(files, Active) == (if g.active then Some(package) else if g.rollback then None else before)
    && (!g.committed ==> Get(files, Rollback) == if g.rollback then before else None)
    && (g.committed ==> g.active)
  }

  /** The armed name holds a whole package or nothing, and an old one is not lost before the new one is committed. */
  ghost predicate Armed(before: Option<Bytes>, package: Bytes, files: Files<Name>, committed: bool) {
    && Get(files, Active) in {None, before, Some(package)}
    && (committed ==> Get(files, Active) == Some(package))
    && (!committed && before.Some? ==> Get(files, Active) == before || Get(files, Rollback) == before)
  }

  /* Passivation. */

  /** How far passivation has got: the old passive file set aside, the armed name gone, all of it verified. */
  datatype Passivation = Passivation(rollback: bool, gone: bool, committed: bool)

  predicate PassiveFit(selects: string -> bool, files: Files<Name>, package: Bytes, existing: Option<Bytes>) {
    && OnlyActiveSelected(selects, files) && files[Active] == package && Rollback !in files
    && if existing.None? then Passive in files ==> files[Passive] == package
       else Passive in files && files[Passive] == existing.value
  }

  ghost predicate PassiveTells(before: Files<Name>, package: Bytes, existing: Option<Bytes>, files: Files<Name>,
                               g: Passivation) {
    && Get(files, Active) == (if g.gone then None else Some(package))
    && Get(files, Passive) == (if g.gone then Some(package) else if g.rollback then None else Get(before, Passive))
    && (!g.committed ==> Get(files, Rollback) == if g.rollback then existing else None)
    && (g.rollback ==> existing.Some?) && (g.gone && !g.committed && existing.Some? ==> g.rollback)
    && (g.committed ==> g.gone)
  }

  /** What an uncommitted passivation leaves when nothing else goes wrong. */
  ghost function PutRight(before: Files<Name>, package: Bytes, existing: Option<Bytes>, gone: bool,
                          failInert: bool): Files<Name> {
    if !gone then before
    else if failInert then
      var inert := (before - {Active})[Passive := package];
      if existing.Some? then inert[Rollback := existing.value] else inert
    else if existing.None? then before - {Passive} else before
  }

  const PASSIVATED: set<Name> := {Active, Passive, Rollback}

  const STAGED: set<Name> := {Active, Temporary, Rollback}

  class Packages {
    const selects: string -> bool
    const card: Card<Name>

    constructor (selects: string -> bool, card: Card<Name>)
      ensures this.selects == selects && this.card == card
    {
      this.selects, this.card := selects, card;
    }

    method StageAttempt(package: Bytes) returns (f: Fate, g: Staging)
      requires StageFit(selects, card.files)
      modifies card
      ensures Keeps(old(card.files), card.files, STAGED) && StageTells(Get(old(card.files), Active), package, card.files, g)
      ensures card.failures == if f.Fails? then old(card.failures) + 1 else old(card.failures)
      ensures NoCrash(old(card.fates)) ==> !f.Crashes? && NoCrash(card.fates)
      ensures card.Due() == old(card.Due())
      ensures f.Well? ==> g.committed && Get(card.files, Rollback).None? && Get(card.files, Temporary).None?
      ensures old(card.fates) == [] ==> card.fates == [] && f == Well
    {
      hide NoCrash, FailsIn, Card.Due;
      ghost var before := card.files;
      g := Staging(Active in card.files, false, false, false);
      f := card.WriteNew(Temporary, package);
      if !f.Well? {
        return;
      }
      if Active in card.files {
        f := card.Rename(Active, Rollback);
        if !f.Well? {
          return;
        }
        g := g.(rollback := true);
        f := card.Sync();
        if !f.Well? {
          return;
        }
      }
      f := card.Rename(Temporary, Active);
      if !f.Well? {
        return;
      }
      g := g.(active := true);
      f := card.Sync();
      if !f.Well? {
        return;
      }
      OnlyActiveKept(selects, before, card.files);
      if Get(card.files, Active) != Some(package) || !OnlyActiveSelected(selects, card.files) {
        return Fails(None), g;
      }
      g := g.(committed := true);
      if g.rollback {
        f := card.Unlink(Rollback);
        if !f.Well? {
          return;
        }
        g := g.(rollback := false);
        f := card.Sync();
      }
    }

    method StageUndo(ghost before: Option<Bytes>, package: Bytes, g: Staging) returns (f: Fate)
      requires StageTells(before, package, card.files, g) && !g.committed
      modifies card
      ensures Keeps(old(card.files), card.files, STAGED) && Get(card.files, Temporary) == Get(old(card.files), Temporary)
      ensures Armed(before, package, card.files, false)
      ensures f.Well? ==> Get(card.files, Active) == before && Get(card.files, Rollback).None?
      ensures card.failures == if f.Fails? then old(card.failures) + 1 else old(card.failures)
      ensures NoCrash(old(card.fates)) ==> !f.Crashes? && NoCrash(card.fates)
      ensures card.Due() == old(card.Due())
      ensures old(card.fates) == [] ==> card.fates == [] && f == Well
    {
      hide NoCrash, FailsIn, Card.Due;
      f := Well;
      if g.active {
        f := card.Discard(Active);
        if !f.Well? {
          return;
        }
        f := card.Sync();
        if !f.Well? {
          return;
        }
      }
      if g.rollback {
        f := card.Rename(Rollback, Active);
        if !f.Well? {
          return;
        }
        f := card.Sync();
      }
    }

    /** The armed name never holds anything but a whole package, and one failure before the commit changes nothing. */
    method Stage(package: Bytes) returns (outcome: CardOutcome, ghost committed: bool)
      modifies card
      ensures outcome == Refused <==>
                Temporary in old(card.files) || Rollback in old(card.files)
                || (exists s :: selects(s) && Other(s) in old(card.files))
      ensures outcome == Refused ==> card.files == old(card.files)
      ensures Keeps(old(card.files), card.files, STAGED)
      ensures outcome != Refused ==> Armed(Get(old(card.files), Active), package, card.files, committed)
      ensures outcome == Done ==> committed && card.files == old(card.files)[Active := package]
      ensures outcome == Failed && !committed && card.failures == old(card.failures) + 1 ==> card.files == old(card.files)
      ensures NoCrash(old(card.fates)) ==> outcome != Crashed
      ensures card.failures <= old(card.failures) + FailsIn(old(card.fates))
      ensures OneFails(old(card.fates)) && !committed ==> card.files == old(card.files)
      ensures old(card.fates) == [] && outcome != Refused ==> outcome == Done
    {
      ghost var before := card.files;
      committed := false;
      StageFitExactly(selects, card.files);
      if !StageFit(selects, card.files) {
        return Refused, false;
      }
      hide *;
      Spending(card);
      var f, g := StageAttempt(package);
      committed := g.committed;
      StageArmed(Get(before, Active), package, card.files, g);
      if f.Crashes? {
        return Crashed, committed;
      }
      ghost var attempted := card.files;
      if f.Fails? && !g.committed {
        var u := StageUndo(Get(before, Active), package, g);
        StagedOn(before, attempted, card.files);
        if u.Crashes? {
          return Crashed, committed;
        }
      }
      ghost var undone := card.files;
      var t := card.Discard(Temporary);
      StageTidied(before, undone, card.files, package, committed, t.Well?);
      Spending(card);
      outcome := if t.Crashes? then Crashed else if t.Well? && f.Well? then Done else Failed;
    }

    method PassiveAttempt(package: Bytes, existing: Option<Bytes>) returns (f: Fate, g: Passivation)
      requires PassiveFit(selects, card.files, package, existing)
      modifies card
      ensures Keeps(old(card.files), card.files, PASSIVATED)
      ensures PassiveTells(old(card.files), package, existing, card.files, g)
      ensures card.failures == if f.Fails? then old(card.failures) + 1 else old(card.failures)
      ensures NoCrash(old(card.fates)) ==> !f.Crashes? && NoCrash(card.fates)
      ensures card.Due() == old(card.Due())
      ensures g.committed ==> NothingSelected(selects, card.files)
      ensures f.Well? ==> g.committed && Get(card.files, Rollback).None?
      ensures old(card.fates) == [] ==> card.fates == [] && f == Well
    {
      hide NoCrash, FailsIn, Card.Due;
      ghost var before := card.files;
      g := Passivation(false, false, false);
      if existing.Some? {
        f := card.Rename(Passive, Rollback);
        if !f.Well? {
          return;
        }
        g := g.(rollback := true);
        f := card.Sync();
        if !f.Well? {
          return;
        }
      }
      if Passive in card.files {
        f := card.Unlink(Active);
      } else {
        f := card.Rename(Active, Passive);
      }
      if !f.Well? {
        return;
      }
      g := g.(gone := true);
      f := card.Sync();
      if !f.Well? {
        return;
      }
      NothingLeftSelected(selects, before, card.files);
      if Active in card.files || Get(card.files, Passive) != Some(package) || !NothingSelected(selects, card.files) {
        return Fails(None), g;
      }
      g := g.(committed := true);
      if g.rollback {
        f := card.Unlink(Rollback);
        NothingLeftSelected(selects, before, card.files);
        if !f.Well? {
          return;
        }
        g := g.(rollback := false);
        f := card.Sync();
      }
    }

    /** Re-arms, unless the call is one that must fail inert. */
    method PassiveUndo(ghost before: Files<Name>, package: Bytes, existing: Option<Bytes>, g: Passivation,
                       failInert: bool)
      returns (f: Fate)
      requires PassiveFit(selects, before, package, existing)
      requires PassiveTells(before, package, existing, card.files, g) && !g.committed
      modifies card
      ensures Keeps(old(card.files), card.files, PASSIVATED)
      ensures Get(card.files, Active) == Some(package) || Get(card.files, Passive) == Some(package)
      ensures failInert && g.gone ==> Active !in card.files
      ensures f.Well? ==>
                var right := PutRight(before, package, existing, g.gone, failInert);
                forall n <- PASSIVATED :: Get(card.files, n) == Get(right, n)
      ensures card.failures == if f.Fails? then old(card.failures) + 1 else old(card.failures)
      ensures NoCrash(old(card.fates)) ==> !f.Crashes? && NoCrash(card.fates)
      ensures card.Due() == old(card.Due())
      ensures old(card.fates) == [] ==> card.fates == [] && f == Well
    {
      hide NoCrash, FailsIn, Card.Due;
      f := Well;
      if g.gone && !failInert {
        f := card.Rename(Passive, Active);
        if !f.Well? {
          return;
        }
        f := card.Sync();
        if !f.Well? {
          return;
        }
      }
      if g.rollback && Rollback in card.files && Passive !in card.files {
        f := card.Rename(Rollback, Passive);
        if !f.Well? {
          return;
        }
        f := card.Sync();
      }
    }

    /**
     * The package is under one of its two names throughout. Once the armed name is gone a call that must fail inert
     * never brings it back; any other one puts the armed package back, at most at the price of an equal passive copy.
     */
    method Passivate(package: Bytes, existing: Option<Bytes>, failInert: bool)
      returns (outcome: CardOutcome, ghost gone: bool, ghost committed: bool)
      modifies card
      ensures outcome == Refused <==>
                || Get(old(card.files), Active) != Some(package) || Rollback in old(card.files)
                || (if existing.None? then Get(old(card.files), Passive) !in {None, Some(package)}
                    else Get(old(card.files), Passive) != existing)
                || (exists s :: selects(s) && Other(s) in old(card.files))
      ensures outcome == Refused ==> card.files == old(card.files)
      ensures Keeps(old(card.files), card.files, PASSIVATED)
      ensures outcome != Refused ==> Get(card.files, Active) == Some(package) || Get(card.files, Passive) == Some(package)
      ensures failInert && gone ==> Active !in card.files
      ensures committed ==> gone && Active !in card.files && Get(card.files, Passive) == Some(package)
                            && NothingSelected(selects, card.files)
      ensures outcome == Done ==> committed && card.files == (old(card.files) - {Active})[Passive := package]
      ensures outcome == Failed && !committed && card.failures == old(card.failures) + 1 ==>
                card.files == PutRight(old(card.files), package, existing, gone, failInert)
      ensures NoCrash(old(card.fates)) ==> outcome != Crashed
      ensures card.failures <= old(card.failures) + FailsIn(old(card.fates))
      ensures OneFails(old(card.fates)) && !committed && outcome != Refused ==>
                card.files == PutRight(old(card.files), package, existing, gone, failInert)
      ensures old(card.fates) == [] && outcome != Refused ==> outcome == Done
    {
      ghost var before := card.files;
      gone, committed := false, false;
      PassiveFitExactly(selects, card.files, package, existing);
      if !PassiveFit(selects, card.files, package, existing) {
        return Refused, false, false;
      }
      var f, g := PassiveAttempt(package, existing);
      gone, committed := g.gone, g.committed;
      if f.Fails? && !g.committed {
        ghost var attempted := card.files;
        var u := PassiveUndo(before, package, existing, g, failInert);
        if u.Well? {
          PutRightIs(before, attempted, card.files, PutRight(before, package, existing, gone, failInert));
        }
        return if u.Crashes? then Crashed else Failed, gone, committed;
      }
      if f.Well? {
        PutRightIs(before, before, card.files, (before - {Active})[Passive := package]);
      }
      outcome := After(f);
    }
  }

  lemma StageFitExactly(selects: string -> bool, files: Files<Name>)
    ensures StageFit(selects, files) <==>
              Temporary !in files && Rollback !in files && forall s | selects(s) :: Other(s) !in files
  {
    SelectionExactly(selects, files);
    hide NothingSelected, OnlyActiveSelected;
  }

  lemma PassiveFitExactly(selects: string -> bool, files: Files<Name>, package: Bytes, existing: Option<Bytes>)
    ensures PassiveFit(selects, files, package, existing) <==>
              && Get(files, Active) == Some(package) && Rollback !in files
              && (if existing.None? then Get(files, Passive) in {None, Some(package)} else Get(files, Passive) == existing)
              && forall s | selects(s) :: Other(s) !in files
  {
    SelectionExactly(selects, files);
    hide NothingSelected;
  }

  lemma NothingLeftSelected(selects: string -> bool, before: Files<Name>, after: Files<Name>)
    requires OnlyActiveSelected(selects, before) && Keeps(before, after, PASSIVATED) && Active !in after
    ensures NothingSelected(selects, after)
  {
    forall n <- after ensures !Selected(selects, n) {
      assert n !in PASSIVATED ==> Get(after, n) == Get(before, n);
    }
  }

  /** With the three names accounted for, and the rest kept, the card is known. */
  lemma PutRightIs(before: Files<Name>, mid: Files<Name>, after: Files<Name>, right: Files<Name>)
    requires Keeps(before, mid, PASSIVATED) && Keeps(mid, after, PASSIVATED) && Keeps(before, right, PASSIVATED)
    requires forall n <- PASSIVATED :: Get(after, n) == Get(right, n)
    ensures after == right
  {
    forall n: Name ensures Get(after, n) == Get(right, n) {
    }
    SameFiles(after, right);
  }

  lemma OnlyActiveKept(selects: string -> bool, before: Files<Name>, after: Files<Name>)
    requires NothingSelected(selects, before) || OnlyActiveSelected(selects, before)
    requires Keeps(before, after, STAGED) && Active in after
    ensures OnlyActiveSelected(selects, after)
  {
    forall n <- after | Selected(selects, n) ensures n == Active {
      assert n != Active ==> Get(after, n) == Get(before, n);
    }
  }

  lemma StageArmed(before: Option<Bytes>, package: Bytes, files: Files<Name>, g: Staging)
    requires StageTells(before, package, files, g)
    ensures Armed(before, package, files, g.committed)
  {
  }

  lemma StagedOn(before: Files<Name>, mid: Files<Name>, after: Files<Name>)
    requires Keeps(before, mid, STAGED) && Keeps(mid, after, STAGED)
    ensures Keeps(before, after, STAGED)
  {
  }

  lemma StageTidied(before: Files<Name>, undone: Files<Name>, after: Files<Name>, package: Bytes, committed: bool,
                    well: bool)
    requires Temporary !in before && Rollback !in before && Keeps(before, undone, STAGED)
    requires if well then Updated(undone, after, Temporary, None) else after == undone
    requires Armed(Get(before, Active), package, undone, committed)
    ensures Keeps(before, after, STAGED) && Armed(Get(before, Active), package, after, committed)
    ensures well && Get(undone, Rollback).None? && Get(undone, Active) == Get(before, Active) ==> after == before
    ensures well && Get(undone, Rollback).None? && committed ==> after == before[Active := package]
  {
    var renewed := before[Active := package];
    forall n: Name ensures Get(renewed, n) == if n == Active then Some(package) else Get(before, n) {
    }
    if well && Get(undone, Rollback).None? && Get(undone, Active) == Get(before, Active) {
      forall n: Name ensures Get(after, n) == Get(before, n) {
      }
      SameFiles(after, before);
    }
    if well && Get(undone, Rollback).None? && committed {
      forall n: Name ensures Get(after, n) == Get(renewed, n) {
      }
      SameFiles(after, renewed);
    }
  }
}
