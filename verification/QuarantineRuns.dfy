/** The quarantine as it runs: archive, journal, remove, and roll back if a step fails (installer/media.py). */
module QuarantineRuns {
  import opened Common
  import opened MediaSteps
  import opened Quarantine
  import opened RecoveryCheckpoint

  lemma DerivedWithout(q: Setting, original: Files<string>, removals: seq<string>, before: Files<string>,
                       after: Files<string>, r: string)
    requires Derived(q, original, removals, before) && r in removals && Updated(before, after, r, None)
    ensures Derived(q, original, removals, after)
    ensures NoParts(q, original, removals, before) ==> NoParts(q, original, removals, after)
    ensures Missing(after, removals) == Missing(before, removals) + {r}
  {
    Pointwise(before, after);
  }

  /** Membership read off the pointwise form. */
  lemma Pointwise(before: Files<string>, after: Files<string>)
    ensures forall n :: n in before <==> Get(before, n).Some?
    ensures forall n :: n in after <==> Get(after, n).Some?
  {
  }

  /** A temporary's name that is free now was free from the start. */
  lemma FreeFromStart(q: Setting, original: Files<string>, removals: seq<string>, card: Files<string>, r: string)
    requires Derived(q, original, removals, card) && PartsApart(q, removals) && r in removals && q.part(r) !in card
    ensures q.part(r) !in original
  {
    Pointwise(card, original);
  }

  lemma DerivedWithPart(q: Setting, original: Files<string>, removals: seq<string>, before: Files<string>,
                        after: Files<string>, r: string)
    requires Derived(q, original, removals, before) && PartsApart(q, removals) && r in removals && r !in before
    requires q.part(r) !in before && forall n :: n != q.part(r) ==> Get(after, n) == Get(before, n)
    ensures Derived(q, original, removals, after) && r !in after
    ensures forall t <- removals :: t in before <==> t in after
    ensures forall t <- removals :: t != r ==> (q.part(t) in after <==> q.part(t) in before)
  {
    Pointwise(before, after);
    FreeFromStart(q, original, removals, before, r);
    assert IsPart(q, removals, q.part(r));
  }

  lemma DerivedRestored(q: Setting, original: Files<string>, removals: seq<string>, before: Files<string>,
                        after: Files<string>, r: string)
    requires Derived(q, original, removals, before) && PartsApart(q, removals) && r in removals && r !in before
    requires Get(before, q.part(r)) == Some(original[r]) && Renamed(before, after, q.part(r), r)
    requires q.part(r) !in original
    ensures Derived(q, original, removals, after)
    ensures forall t <- removals :: t in after <==> t in before || t == r
    ensures forall t <- removals :: t != r ==> (q.part(t) in after <==> q.part(t) in before)
    ensures q.part(r) !in after
  {
    Pointwise(before, after);
    assert IsPart(q, removals, q.part(r));
  }

  lemma AllBack(q: Setting, original: Files<string>, removals: seq<string>, card: Files<string>)
    requires Derived(q, original, removals, card) && forall r <- removals :: r in card
    ensures card == original
  {
    forall n ensures Get(card, n) == Get(original, n) {
      if n !in removals && n !in original && IsPart(q, removals, n) {
        var r :| r in removals && q.part(r) == n;
      }
    }
    SameFiles(card, original);
  }

  lemma AllGone(q: Setting, original: Files<string>, removals: seq<string>, card: Files<string>)
    requires Derived(q, original, removals, card) && NoParts(q, original, removals, card)
    requires Missing(card, removals) == Members(removals)
    ensures card == original - Members(removals)
  {
    var rest := original - Members(removals);
    forall n ensures Get(card, n) == Get(rest, n) {
      if n in removals {
        assert n in Missing(card, removals);
      } else if n !in original && IsPart(q, removals, n) {
        var r :| r in removals && q.part(r) == n;
      }
    }
    SameFiles(card, rest);
  }

  /** A restore on its way: the first `done` removals are back, and only over temporaries' names that were free. */
  ghost predicate Restoring(q: Setting, original: Files<string>, removals: seq<string>, start: Files<string>,
                            card: Files<string>, done: nat) {
    && done <= |removals| && Derived(q, original, removals, card)
    && (forall j | 0 <= j < done :: removals[j] in card)
    && (forall r <- removals :: q.part(r) in card <==> q.part(r) in start)
    && (forall r <- removals :: (r in start ==> r in card) && (r in card && r !in start ==> q.part(r) !in start))
  }

  /** A file under a temporary's name stays, and so does the lack of the file that cannot be restored because of it. */
  ghost predicate PartsKept(q: Setting, removals: seq<string>, before: Files<string>, after: Files<string>) {
    forall r <- removals :: q.part(r) in before ==> q.part(r) in after && (r !in before ==> r !in after)
  }

  /** What one restored file changes. */
  ghost predicate OneBack(q: Setting, removals: seq<string>, before: Files<string>, after: Files<string>, r: string) {
    && (forall t <- removals :: t in after <==> t in before || t == r)
    && (forall t <- removals :: q.part(t) in after <==> q.part(t) in before)
    && (r in before || q.part(r) !in before)
  }

  lemma OneBackVia(q: Setting, original: Files<string>, removals: seq<string>, before: Files<string>,
                   mid: Files<string>, after: Files<string>, r: string)
    requires Derived(q, original, removals, before) && PartsApart(q, removals) && r in removals && r !in before
    requires Updated(before, mid, q.part(r), Some(original[r])) && q.part(r) !in before
    requires Renamed(mid, after, q.part(r), r)
    ensures Derived(q, original, removals, after) && OneBack(q, removals, before, after, r)
  {
    FreeFromStart(q, original, removals, before, r);
    DerivedWithPart(q, original, removals, before, mid, r);
    DerivedRestored(q, original, removals, mid, after, r);
    hide Derived, Updated, Renamed, PartsApart;
  }

  lemma HalfBack(q: Setting, original: Files<string>, removals: seq<string>, before: Files<string>, mid: Files<string>,
                 r: string)
    requires Derived(q, original, removals, before) && PartsApart(q, removals) && r in removals && r !in before
    requires q.part(r) !in before
    requires Interrupted(before, mid, q.part(r), original[r]) || Updated(before, mid, q.part(r), Some(original[r]))
    ensures Derived(q, original, removals, mid) && PartsKept(q, removals, before, mid)
    ensures q.part(r) in mid ==> !NoParts(q, original, removals, mid)
  {
    FreeFromStart(q, original, removals, before, r);
    DerivedWithPart(q, original, removals, before, mid, r);
    Pointwise(before, mid);
    hide Derived;
  }

  lemma RestoringStep(q: Setting, original: Files<string>, removals: seq<string>, start: Files<string>,
                      before: Files<string>, after: Files<string>, done: nat)
    requires Restoring(q, original, removals, start, before, done) && done < |removals|
    requires Derived(q, original, removals, after) && OneBack(q, removals, before, after, removals[done])
    ensures Restoring(q, original, removals, start, after, done + 1)
  {
    hide Derived;
  }

  /** Power is lost right after a temporary has been created. */
  const CUT_SHORT: Fate := Crashes(Some(0))

  /** One file comes back, and power is lost before anything more is done. */
  predicate CutAfterOne(fates: seq<Fate>) {
    Head(fates).Well? && Head(Rest(fates)).Well? && Head(Rest(Rest(fates))).Crashes?
  }

  /** The last journal entry fails before it is written, and the rollback is cut while it writes a temporary. */
  const LEAVES_TEMPORARY: seq<Fate> := [Fails(None), CUT_SHORT]

  /** The sync after the last journal entry fails, and the rollback is cut after its first file. */
  const LEAVES_REFUSED: seq<Fate> := [Well, Fails(None), Well, Well, Crashes(None)]

  lemma NothingChanged(q: Setting, removals: seq<string>, card: Files<string>, r: string)
    ensures PartsKept(q, removals, card, card) && (r in card ==> OneBack(q, removals, card, card, r))
  {
  }

  lemma Restorable(q: Setting, original: Files<string>, removals: seq<string>, card: Files<string>, r: string)
    requires Derived(q, original, removals, card) && PartsApart(q, removals) && r in removals
    ensures r in original && (r in card ==> card[r] == original[r]) && q.part(r) != r
    ensures var files := Snap(q, original, removals).files; r in files && files[r] == Identify(q, original[r])
  {
    hide Identify;
  }

  lemma WrittenOrNot(before: Files<string>, after: Files<string>, name: string, content: Bytes)
    ensures Updated(before, after, name, Some(content)) ==> name in after
    ensures Interrupted(before, after, name, content) && name in before ==> after == before
  {
  }

  lemma OneBackKept(q: Setting, removals: seq<string>, before: Files<string>, after: Files<string>, r: string)
    requires OneBack(q, removals, before, after, r) && r in removals
    ensures PartsKept(q, removals, before, after) && r in after
  {
  }

  /** None of the temporaries' names is in use. */
  ghost predicate NoneTaken(q: Setting, removals: seq<string>, card: Files<string>) {
    forall r <- removals :: q.part(r) !in card
  }

  /** The journal says "completed", an installer file is back on the card, and a resume is refused. */
  ghost predicate StuckRefused(q: Setting, card: Files<string>, host: Host) {
    Journals(host, Completed) && ResumeMode(q, card, host).None? && exists r <- Removals(host) :: r in card
  }

  /** A resume will roll back, and cannot, since a temporary's name is taken. */
  ghost predicate StuckOnTemporary(q: Setting, card: Files<string>, host: Host) {
    Journals(host, Pending) && ResumeMode(q, card, host) == Some(Rollback) && !Free(q, Removals(host), card)
  }

  function Owned(q: Setting, card: Files<string>): set<string> { set n <- card | q.owned(n) }

  /** No file lies under the name of a temporary that a call might want to use. */
  ghost predicate NamesFree(q: Setting, resume: bool, card: Files<string>, host: Host) {
    if resume then NoneTaken(q, Removals(host), card) else forall n <- Owned(q, card) :: q.part(n) !in card
  }

  /** How many steps a call takes up to the last journal entry: two and four for each removal, and seven to publish. */
  ghost function StepsBefore(q: Setting, resume: bool, card: Files<string>, host: Host): nat {
    if resume then 2 + 4 * |Members(Removals(host)) - Missing(card, Removals(host))| else 9 + 4 * |Owned(q, card)|
  }

  class Run {
    const q: Setting
    const card: Card<string>
    var host: Host

    constructor (q: Setting, card: Card<string>, host: Host)
      ensures this.q == q && this.card == card && this.host == host
    {
      this.q, this.card, this.host := q, card, host;
    }

    /** The journal is replaced as a whole, and then the directory is synced. */
    method Record(phase: Phase, completed: set<string>) returns (f: Fate)
      requires host.Destination? && host.manifest.Some?
      modifies this`host, card`fates, card`failures
      ensures card.failures == if f.Fails? then old(card.failures) + 1 else old(card.failures)
      ensures NoCrash(old(card.fates)) ==> !f.Crashes? && NoCrash(card.fates)
      ensures card.Due() == old(card.Due())
      ensures f == Synced(old(card.fates)) && card.fates == Onward(old(card.fates))
      ensures var next := old(host).(journal := Some(Journal(phase, q.id(old(host).manifest.value), completed)));
              host == if Head(old(card.fates)).Well? then next else old(host)
    {
      f := card.Next();
      if f.Well? {
        host := host.(journal := Some(Journal(phase, q.id(host.manifest.value), completed)));
        f := card.Sync();
      }
    }

    /** One removal put back from the archive through its temporary, unless it is on the card unchanged. */
    method RestoreOne(ghost original: Files<string>, ghost removals: seq<string>, r: string) returns (f: Fate)
      requires host.Destination? && host.archive == Some(original) && host.manifest == Some(Snap(q, original, removals))
      requires Derived(q, original, removals, card.files) && PartsApart(q, removals) && r in removals
      modifies card
      ensures card.failures == if f.Fails? then old(card.failures) + 1 else old(card.failures)
      ensures NoCrash(old(card.fates)) ==> !f.Crashes? && NoCrash(card.fates)
      ensures r in old(card.files) || q.part(r) !in old(card.files) ==> card.Due() == old(card.Due())
      ensures Derived(q, original, removals, card.files) && PartsKept(q, removals, old(card.files), card.files)
      ensures f.Well? ==> OneBack(q, removals, old(card.files), card.files, r)
      ensures r in old(card.files) ==> f.Well? && card.fates == old(card.fates) && card.files == old(card.files)
      ensures r !in old(card.files) && q.part(r) !in old(card.files) && Head(old(card.fates)) == CUT_SHORT ==>
                f.Crashes? && !NoParts(q, original, removals, card.files)
      ensures r !in old(card.files) && q.part(r) !in old(card.files) && CutAfterOne(old(card.fates)) ==>
                f.Crashes? && r in card.files
      ensures old(card.fates) == [] ==>
                card.fates == [] && !f.Crashes? && (f.Well? <==> r in old(card.files) || q.part(r) !in old(card.files))
    {
      hide Derived, PartsApart, Identify, Identities, Updated, Renamed, Interrupted, Snap, NoParts, PartsKept, OneBack,
           NoCrash, FailsIn, Card.Due;
      var archive, files := host.archive.value, host.manifest.value.files;
      ghost var before := card.files;
      Restorable(q, original, removals, before, r);
      if r !in archive || r !in files || Identify(q, archive[r]) != files[r] {
        return Fails(None);
      }
      NothingChanged(q, removals, before, r);
      if r in card.files {
        if card.files[r] != archive[r] {
          return Fails(None);
        }
        return Well;
      }
      f := card.WriteNew(q.part(r), archive[r]);
      ghost var mid := card.files;
      WrittenOrNot(before, mid, q.part(r), archive[r]);
      if q.part(r) !in before {
        HalfBack(q, original, removals, before, mid, r);
      }
      if !f.Well? {
        return;
      }
      f := card.Rename(q.part(r), r);
      if !f.Well? {
        return;
      }
      OneBackVia(q, original, removals, before, mid, card.files, r);
      OneBackKept(q, removals, before, card.files, r);
      f := card.Sync();
    }

    /** Everything that is missing is put back, and then the journal says so. */
    method Restore() returns (f: Fate)
      requires Archived(q, card.files, host) && !Journals(host, RolledBack)
      modifies card, this`host
      ensures Archived(q, card.files, host) && SameArchive(old(host), host)
      ensures PartsKept(q, Removals(host), old(card.files), card.files)
      ensures card.failures >= if f.Fails? then old(card.failures) + 1 else old(card.failures)
      ensures NoCrash(old(card.fates)) ==> !f.Crashes? && NoCrash(card.fates)
      ensures Free(q, Removals(host), old(card.files)) ==> card.Due() == old(card.Due())
      ensures f.Well? ==> Restored(card.files, host)
      ensures old(card.fates) == [] ==>
                card.fates == [] && !f.Crashes? && (f.Well? <==> Free(q, Removals(host), old(card.files)))
      ensures Free(q, Removals(host), old(card.files)) && Missing(old(card.files), Removals(host)) != {} ==>
                && (Head(old(card.fates)) == CUT_SHORT ==> CutOnTemporary(q, f, card.files, old(host), host))
                && (CutAfterOne(old(card.fates)) ==> CutBehindOne(f, old(card.files), card.files, old(host), host))
    {
      ghost var original := host.archive.value;
      var removals := host.manifest.value.removals;
      ghost var start, host0, fates0 := card.files, host, card.fates;
      hide *;
      RestoreBegins(q, start, host);
      CutBegins(q, removals, start, fates0);
      for i := 0 to |removals|
        invariant Restoring(q, original, removals, start, card.files, i) && host == host0
        invariant card.failures == old(card.failures) && (old(card.fates) == [] ==> card.fates == [])
        invariant CutAhead(q, removals, start, fates0, card.files, card.fates, i)
        invariant NoCrash(old(card.fates)) ==> NoCrash(card.fates)
        invariant Free(q, removals, start) ==> card.Due() == old(card.Due())
      {
        ghost var before, fates := card.files, card.fates;
        RestoringFacts(q, original, removals, start, before, i);
        f := RestoreOne(original, removals, removals[i]);
        CutStep(q, host, start, fates0, before, fates, i, f, card.files, card.fates);
        if !f.Well? {
          StillArchived(q, start, host, card.files);
          PartsKeptSince(q, original, removals, start, before, card.files, i);
          return;
        }
        RestoringStep(q, original, removals, start, before, card.files, i);
      }
      CutEnds(q, removals, start, fates0, card.files, card.fates);
      RestoreEnds(q, start, host, card.files);
      f := Record(RolledBack, {});
      RolledBackEnds(q, start, card.files, host0, host);
    }

    /** One removal: against the snapshot, from the card, and only then into the journal. */
    method RemoveOne(r: string, completed: set<string>, ghost wells: nat, ghost later: seq<Fate>) returns (f: Fate)
      requires Forward(q, card.files, host) && Journals(host, Pending)
      requires r in Removals(host) && r !in completed
      requires completed == Missing(card.files, Removals(host))
      modifies card, this`host
      ensures Forward(q, card.files, host) && SameArchive(old(host), host) && Journals(host, Pending)
      ensures card.failures == if f.Fails? then old(card.failures) + 1 else old(card.failures)
      ensures NoCrash(old(card.fates)) ==> !f.Crashes? && NoCrash(card.fates)
      ensures card.Due() == old(card.Due())
      ensures f.Well? ==> Missing(card.files, Removals(host)) == completed + {r}
      ensures completed <= Missing(card.files, Removals(host))
      ensures old(card.fates) == [] ==> card.fates == [] && f == Well
      ensures Ahead(old(card.fates), wells, later) && wells >= 4 ==> f == Well && Ahead(card.fates, wells - 4, later)
    {
      ghost var host0, before := host, card.files;
      AheadFour(card.fates, wells, later);
      var files := host.manifest.value.files;
      hide *;
      RemovalThere(q, before, host, r);
      if r !in card.files || r !in files || Identify(q, card.files[r]) != files[r] {
        return Fails(None);
      }
      f := card.Unlink(r);
      if !f.Well? {
        return;
      }
      StillForward(q, before, card.files, host, r);
      f := card.Sync();
      if !f.Well? {
        return;
      }
      RecordSteps(card.fates);
      f := Record(Pending, completed + {r});
      JournalForward(q, card.files, host0, host, completed + {r});
    }

    /** All removals that are still there, in order; then the last journal entry. */
    method RemoveAll(missing: set<string>, ghost later: seq<Fate>) returns (f: Fate)
      requires Forward(q, card.files, host) && Journals(host, Pending)
      requires missing == Missing(card.files, Removals(host))
      modifies card, this`host
      ensures Forward(q, card.files, host) && SameArchive(old(host), host)
      ensures missing <= Missing(card.files, Removals(host))
      ensures card.failures == if f.Fails? then old(card.failures) + 1 else old(card.failures)
      ensures NoCrash(old(card.fates)) ==> !f.Crashes? && NoCrash(card.fates)
      ensures card.Due() == old(card.Due())
      ensures f.Well? ==> Removed(card.files, host)
      ensures old(card.fates) == [] ==> card.fates == [] && f == Well
      ensures Ahead(old(card.fates), 4 * |Members(Removals(host)) - missing|, later) ==>
                && f == Synced(later) && card.fates == Onward(later)
                && Missing(card.files, Removals(host)) == Members(Removals(host))
                && Journals(host, if Head(later).Well? then Completed else Pending)
    {
      hide *;
      ForwardArchive(q, card.files, host);
      var removals, completed := Removals(host), missing;
      ghost var host0, fates0, all := host, card.fates, Members(removals);
      SameArchiveNow(host);
      f := Well;
      for i := 0 to |removals|
        invariant Forward(q, card.files, host) && Journals(host, Pending)
        invariant SameArchive(host0, host) && removals == Removals(host) && missing <= completed
        invariant completed == Missing(card.files, removals) && forall j | 0 <= j < i :: removals[j] in completed
        invariant card.failures == old(card.failures) && (old(card.fates) == [] ==> card.fates == [])
        invariant Ahead(fates0, 4 * |all - missing|, later) ==> Ahead(card.fates, 4 * |all - completed|, later)
        invariant (NoCrash(fates0) ==> NoCrash(card.fates)) && card.Due() == old(card.Due())
      {
        if removals[i] !in completed {
          OneFewer(removals, completed, i);
          ghost var host1 := host;
          f := RemoveOne(removals[i], completed, 4 * |all - completed|, later);
          SameArchiveOn(host0, host1, host);
          if !f.Well? {
            return;
          }
          completed := completed + {removals[i]};
        }
      }
      EverythingGone(q, card.files, host, completed);
      AheadNow(card.fates, later);
      ghost var pending := host;
      RecordSteps(card.fates);
      f := Record(Completed, completed);
      CompletedForward(q, card.files, pending, host, completed);
      SameArchiveOn(host0, pending, host);
    }

    /** The archive is built and compared aside, and put in place before the first journal entry. */
    method Publish(removals: seq<string>, ghost wells: nat, ghost later: seq<Fate>) returns (f: Fate)
      requires host == NoDestination && Chosen(q, card.files, removals) && Apart(q, card.files)
      modifies this`host, card`fates, card`failures
      ensures card.failures == if f.Fails? then old(card.failures) + 1 else old(card.failures)
      ensures NoCrash(old(card.fates)) ==> !f.Crashes? && NoCrash(card.fates)
      ensures card.Due() == old(card.Due())
      ensures old(card.fates) == [] ==> card.fates == [] && f == Well
      ensures f.Well? ==> Journals(host, Pending) && Forward(q, card.files, host)
      ensures host.Destination? && host.journal.Some? ==>
                Forward(q, card.files, host) && host.archive == Some(card.files) && Journals(host, Pending)
      ensures host.Destination? && host.manifest.Some? ==> Removals(host) == removals
      ensures f.Well? ==> Removals(host) == removals
      ensures Ahead(old(card.fates), wells, later) && wells >= 7 ==> f == Well && Ahead(card.fates, wells - 7, later)
    {
      hide Forward, Chosen, Apart, Identities, Ahead, Head, Rest, Synced, Onward, NoCrash, FailsIn, Card.Due;
      NothingPlanned();
      PublishedForward(q, card.files, removals);
      AheadSeven(card.fates, wells, later);
      f := card.Next();
      if !f.Well? {
        return;
      }
      host := Destination(None, None, None);
      f := card.Sync();
      if !f.Well? {
        return;
      }
      f := card.Next();
      if !f.Well? {
        return;
      }
      host := host.(archive := Some(card.files));
      f := card.Next();
      if !f.Well? {
        return;
      }
      host := host.(manifest := Some(Snap(q, card.files, removals)));
      f := card.Sync();
      if !f.Well? {
        return;
      }
      RecordSteps(card.fates);
      f := Record(Pending, {});
    }

    method OwnedNames() returns (removals: seq<string>)
      ensures Chosen(q, card.files, removals) && Members(removals) == Owned(q, card.files)
    {
      removals := Listed(Owned(q, card.files));
      assert forall n :: n in removals <==> n in Members(removals);
    }

    /** The journal is brought up to what is missing, the rest removed, and all of it put back if that fails. */
    method Proceed() returns (outcome: QuarantineOutcome)
      requires Forward(q, card.files, host) && Journals(host, Pending)
      modifies card, this`host
      ensures Archived(q, card.files, host) && SameArchive(old(host), host)
      ensures outcome in {Failed, Emptied, FailedAndPutBack, FailedBadly, Crashed}
      ensures outcome == Failed ==> card.files == old(card.files)
      ensures outcome == Emptied ==> Removed(card.files, host) && card.failures == old(card.failures)
      ensures outcome == FailedAndPutBack ==> Restored(card.files, host)
      ensures outcome == FailedBadly ==> card.failures > old(card.failures) + 1
      ensures card.failures >= old(card.failures)
      ensures card.failures == old(card.failures) ==> Forward(q, card.files, host)
      ensures old(card.fates) == [] ==> outcome == Emptied && card.fates == []
      ensures NoCrash(old(card.fates)) ==> outcome != Crashed && NoCrash(card.fates)
      ensures NoneTaken(q, Removals(host), old(card.files)) || FailsIn(old(card.fates)) == 0 ==>
                card.Due() == old(card.Due())
      ensures PartsKept(q, Removals(host), old(card.files), card.files)
      ensures Removals(host) != [] && NoneTaken(q, Removals(host), old(card.files)) ==>
                var wells := 2 + 4 * |Members(Removals(host)) - Missing(old(card.files), Removals(host))|;
                && (Ahead(old(card.fates), wells, LEAVES_REFUSED) ==>
                      outcome == Crashed && StuckRefused(q, card.files, host))
                && (Ahead(old(card.fates), wells, LEAVES_TEMPORARY) ==>
                      outcome == Crashed && StuckOnTemporary(q, card.files, host))
    {
      hide *;
      ghost var start, host0, fates0 := card.files, host, card.fates;
      Spending(card);
      ForwardArchive(q, start, host);
      var removals := Removals(host);
      ForwardMissing(q, start, host);
      var completed := host.journal.value.completed + Missing(card.files, removals);
      ghost var wells := 2 + 4 * |Members(removals) - completed|;
      ghost var later := if Ahead(fates0, wells, LEAVES_REFUSED) then LEAVES_REFUSED else LEAVES_TEMPORARY;
      OneOfTwo(fates0, wells);
      AheadTwo(fates0, wells, later);
      RecordSteps(fates0);
      var f := Record(Pending, completed);
      JournalForward(q, card.files, host0, host, completed);
      ForwardIsArchived(q, card.files, host);
      ForwardKept(q, start, host0, card.files, host);
      ghost var host1 := host;
      if !f.Well? {
        return if f.Fails? then Failed else Crashed;
      }
      f := RemoveAll(completed, later);
      ghost var host2, emptied := host, card.files;
      SameArchiveOn(host0, host1, host);
      ForwardIsArchived(q, card.files, host);
      ForwardKept(q, start, host0, card.files, host);
      SchedulesStep();
      Spending(card);
      if !f.Fails? {
        return if f.Well? then Emptied else Crashed;
      }
      NoneTakenIsFree(q, removals, emptied);
      f := Restore();
      SameArchiveOn(host0, host2, host);
      KeptOn(q, Removals(host), start, emptied, card.files);
      CutIsStuck(q, f, emptied, host2, card.files, host);
      outcome := if f.Well? then FailedAndPutBack else if f.Fails? then FailedBadly else Crashed;
    }

    /**
     * One call. A first one takes the card as it is for the original; a resumed one goes by the archive and the
     * journal, and is only ever for a destination that these runs left behind. Whatever fails and wherever it crashes,
     * the card stays derived from the archive; it ends without its installer files, or as the original, or one more
     * call decides. One failing step, with no crash and no temporary's name taken, ends with all of it or the card as
     * it was. But there are two schedules, of one failing step and one crash each, after which no call ever decides.
     */
    method Quarantine(resume: bool) returns (outcome: QuarantineOutcome)
      requires if resume then ResumeMode(q, card.files, host).Some? ==> Archived(q, card.files, host)
               else Apart(q, card.files)
      modifies card, this`host
      ensures outcome in {Declined, AlreadyEmptied} ==> card.files == old(card.files) && host == old(host)
      ensures outcome == Declined <==>
                if resume then ResumeMode(q, old(card.files), old(host)).None?
                else old(host) != NoDestination || !Reviewed(q, old(card.files))
      ensures resume && outcome != Declined ==>
                Since(q, old(card.files), old(host), card.files, host, card.failures > old(card.failures))
      ensures !resume && outcome != Declined ==>
                if host.Destination? && host.journal.Some?
                then Archived(q, card.files, host) && host.archive == Some(old(card.files))
                     && (card.failures == old(card.failures) ==> Forward(q, card.files, host))
                else card.files == old(card.files)
      ensures !resume && outcome != Declined ==> {q.backup, q.checkpoint, q.stage2} <= Owned(q, old(card.files))
      ensures !resume && outcome != Declined && host.Destination? && host.manifest.Some? ==>
                Members(Removals(host)) == Owned(q, old(card.files))
      ensures outcome == Emptied ==> Removed(card.files, host)
      ensures !resume && outcome == Emptied ==> card.files == old(card.files) - Owned(q, old(card.files))
      ensures outcome in {PutBack, FailedAndPutBack} ==> Restored(card.files, host)
      ensures !resume && outcome == FailedAndPutBack ==> card.files == old(card.files)
      ensures outcome == Failed ==> card.files == old(card.files)
      ensures card.failures >= old(card.failures)
      ensures NoCrash(old(card.fates)) ==> outcome != Crashed
      ensures NamesFree(q, resume, old(card.files), old(host)) ==>
                card.failures <= old(card.failures) + FailsIn(old(card.fates))
      ensures (!resume || Forward(q, old(card.files), old(host))) && FailsIn(old(card.fates)) == 0 ==>
                card.failures == old(card.failures)
      ensures OneFails(old(card.fates)) && NamesFree(q, resume, old(card.files), old(host)) && outcome != Declined
              && (resume ==> Forward(q, old(card.files), old(host))) ==>
                outcome in {Emptied, AlreadyEmptied, Failed, FailedAndPutBack}
      ensures (card.failures == old(card.failures) + 1 && outcome != Crashed
               && (resume ==> Forward(q, old(card.files), old(host)))) ==> outcome in {Failed, FailedAndPutBack}
      ensures old(card.fates) == [] && outcome != Declined ==>
                card.fates == []
                && outcome == if !resume then Emptied else
                     match ResumeMode(q, old(card.files), old(host)).value
                     case AlreadyCompleted => AlreadyEmptied
                     case Finish => Emptied
                     case Rollback => if Free(q, Removals(old(host)), old(card.files)) then PutBack else FailedBadly
      ensures resume && ResumeMode(q, old(card.files), old(host)) == Some(Rollback) && Head(old(card.fates)) == CUT_SHORT
              && Free(q, Removals(old(host)), old(card.files)) && Missing(old(card.files), Removals(old(host))) != {} ==>
                outcome == Crashed && !NoParts(q, Original(host), Removals(host), card.files)
                && !Free(q, Removals(host), card.files)
      ensures outcome != Declined && NamesFree(q, resume, old(card.files), old(host))
              && (resume ==> ResumeMode(q, old(card.files), old(host)) == Some(Finish) && Removals(old(host)) != []) ==>
                var wells := StepsBefore(q, resume, old(card.files), old(host));
                && (Ahead(old(card.fates), wells, LEAVES_REFUSED) ==>
                      outcome == Crashed && StuckRefused(q, card.files, host))
                && (Ahead(old(card.fates), wells, LEAVES_TEMPORARY) ==>
                      outcome == Crashed && StuckOnTemporary(q, card.files, host))
    {
      hide *;
      ghost var start, host0, fates0 := card.files, host, card.fates;
      ghost var wells := StepsBefore(q, resume, start, host0);
      StepsOf(q, resume, start, host0);
      Spending(card);
      NamesFacts(q, resume, start, host0);
      if resume {
        var mode := ResumeMode(q, card.files, host);
        if mode.None? {
          return Declined;
        }
        ResumeFacts(q, card.files, host);
        if mode.value == AlreadyCompleted {
          SinceNow(q, start, host0);
          return AlreadyEmptied;
        }
        if mode.value == Rollback {
          var f := Restore();
          CutOnTemporaryFacts(q, f, card.files, host0, host);
          RolledBackSince(q, start, host0, card.files, host, card.failures > old(card.failures));
          Spending(card);
          return if f.Well? then PutBack else if f.Fails? then FailedBadly else Crashed;
        }
      } else {
        ReviewedOwned(q, card.files);
        if host != NoDestination || !Reviewed(q, card.files) {
          return Declined;
        }
        var removals := OwnedNames();
        ghost var later := if Ahead(fates0, wells, LEAVES_REFUSED) then LEAVES_REFUSED else LEAVES_TEMPORARY;
        OneOfTwo(fates0, wells);
        var f := Publish(removals, wells, later);
        Spending(card);
        if !f.Well? {
          ForwardOnceJournaled(q, card.files, host);
          return if f.Fails? then Failed else Crashed;
        }
        NothingMissingYet(q, start, removals, host);
      }
      ghost var host1 := host;
      ForwardArchive(q, start, host);
      outcome := Proceed();
      ProceededSince(q, start, host1, card.files, host, card.failures > old(card.failures));
      ArchivedParts(q, card.files, host);
      EndsAs(card.files, host);
      Spending(card);
    }

    /**
     * Resumed calls with any schedules, and a last one in which every step goes well. If only crashes came between,
     * the installer files are gone and nothing else is. If steps failed too, a card that was being put back is put
     * back, but for the two ways to get stuck: the name of a temporary taken, or a rollback cut short after the last
     * entry; and either way lasts for good.
     */
    method Resumes(schedules: seq<seq<Fate>>) returns (outcome: QuarantineOutcome)
      requires Archived(q, card.files, host)
      modifies card, this`host
      ensures Archived(q, card.files, host) && SameArchive(old(host), host)
      ensures card.failures == old(card.failures) && Forward(q, old(card.files), old(host)) ==> Removed(card.files, host)
      ensures (forall s <- schedules :: FailsIn(s) == 0) && Forward(q, old(card.files), old(host)) ==>
                Removed(card.files, host)
      ensures || Removed(card.files, host) || Restored(card.files, host)
              || !Free(q, Removals(host), card.files)
              || (Journals(host, Completed) && Missing(card.files, Removals(host)) != Members(Removals(host)))
      ensures PartsKept(q, Removals(host), old(card.files), card.files)
      ensures !Free(q, Removals(host), old(card.files)) ==> !Free(q, Removals(host), card.files)
      ensures ResumeMode(q, old(card.files), old(host)).None? ==> card.files == old(card.files) && host == old(host)
    {
      hide *;
      ghost var start, host0, failures := card.files, host, card.failures;
      SinceNow(q, start, host);
      for i := 0 to |schedules|
        invariant card.failures >= failures && Since(q, start, host0, card.files, host, card.failures > failures)
        invariant ResumeMode(q, start, host0).None? ==> card.files == start && host == host0
        invariant (forall s <- schedules :: FailsIn(s) == 0) && Forward(q, start, host0) ==> card.failures == failures
      {
        SinceParts(q, start, host0, card.files, host, card.failures > failures);
        outcome := ResumeWith(schedules[i], start, host0, failures);
      }
      SinceParts(q, start, host0, card.files, host, card.failures > failures);
      ghost var before, hostBefore := card.files, host;
      outcome := ResumeWith([], start, host0, failures);
      SinceParts(q, start, host0, card.files, host, card.failures > failures);
      LastCall(q, host0, before, hostBefore, card.files, host, outcome);
      TakenStays(q, Removals(host), start, card.files);
    }

    /**
     * A first call with any schedule, then resumed ones, and a last one in which every step goes well. Unless the
     * first call ended before its first journal entry, the card ends without exactly its installer names, or as it was,
     * or stuck in one of the two ways; and if no step of any schedule fails, without its installer names.
     */
    method QuarantineThrough(first: seq<Fate>, later: seq<seq<Fate>>) returns (outcome: QuarantineOutcome)
      requires host == NoDestination && Reviewed(q, card.files) && Apart(q, card.files)
      modifies card, this`host
      ensures first == [] ==> host.Destination? && host.journal.Some?
      ensures if host.Destination? && host.journal.Some? then
                || card.files == old(card.files) - Owned(q, old(card.files)) || card.files == old(card.files)
                || !Free(q, Removals(host), card.files)
                || (Journals(host, Completed) && Missing(card.files, Removals(host)) != Members(Removals(host)))
              else card.files == old(card.files)
      ensures host.Destination? && host.journal.Some? && FailsIn(first) == 0
              && (forall s <- later :: FailsIn(s) == 0) ==>
                card.files == old(card.files) - Owned(q, old(card.files))
    {
      hide *;
      card.fates := first;
      outcome := Quarantine(false);
      EndsAs(card.files, host);
      if !host.Destination? || host.journal.None? {
        return;
      }
      ghost var host1 := host;
      ArchivedParts(q, card.files, host);
      outcome := Resumes(later);
      ArchivedParts(q, card.files, host);
      SameArchiveOn(host1, host1, host);
      EndsAs(card.files, host);
    }

    /**
     * A first call on a card with a checkpoint as stage 2 writes it. It goes on exactly if the backup is the one of the
     * checkpoint and the stage-2 file another one of the same size; a consistent card is declined and left alone.
     */
    method QuarantineRecorded(ghost saved: Bytes, ghost kernel: Bytes, ghost system: Bytes, ghost provisioning: Bytes)
      returns (outcome: QuarantineOutcome)
      requires host == NoDestination && Apart(q, card.files) && IsSha256(q.hash)
      requires |saved| < 0x1_0000_0000 && |kernel| + |system| < 0x1_0000_0000
      requires q.owned(q.backup) && q.owned(q.checkpoint) && q.owned(q.stage2)
      requires q.checkpoint in card.files
      requires card.files[q.checkpoint] == RecoveryCheckpoint.Record(q.hash, saved, kernel, system, provisioning)
      modifies card, this`host
      ensures outcome != Declined <==>
                && q.backup in old(card.files) && q.stage2 in old(card.files) && provisioning != []
                && |old(card.files)[q.backup]| == 0x7C0000 == |saved|
                && q.hash(old(card.files)[q.backup]) == q.hash(saved)
                && |old(card.files)[q.stage2]| == |kernel| + |system|
                && q.hash(old(card.files)[q.stage2]) != q.hash(kernel + system)
      ensures outcome == Declined ==> card.files == old(card.files) && host == NoDestination
      ensures outcome != Declined && old(card.fates) == [] ==>
                outcome == Emptied && card.files == old(card.files) - Owned(q, old(card.files))
    {
      if q.backup in card.files && q.stage2 in card.files {
        QuarantineExactly(q.hash, saved, kernel, system, provisioning, card.files[q.backup], card.files[q.stage2]);
      }
      hide RecoveryCheckpoint.Record, Inconsistent, Apart;
      outcome := Quarantine(false);
    }

    method ResumeWith(fates: seq<Fate>, ghost start: Files<string>, ghost host0: Host, ghost failures: nat)
      returns (outcome: QuarantineOutcome)
      requires card.failures >= failures && Since(q, start, host0, card.files, host, card.failures > failures)
      modifies card, this`host
      ensures card.failures >= failures && Since(q, start, host0, card.files, host, card.failures > failures)
      ensures card.failures >= old(card.failures)
      ensures fates == [] ==> LastStep(q, old(card.files), old(host), card.files, host, outcome)
      ensures ResumeMode(q, old(card.files), old(host)).None? ==> card.files == old(card.files) && host == old(host)
      ensures Forward(q, old(card.files), old(host)) && FailsIn(fates) == 0 ==> card.failures == old(card.failures)
    {
      ghost var before, hostBefore, grown := card.files, host, card.failures;
      hide *;
      SinceParts(q, start, host0, before, hostBefore, grown > failures);
      card.fates := fates;
      outcome := Quarantine(true);
      if outcome == Declined {
        return;
      }
      SinceSince(q, start, host0, before, hostBefore, card.files, host, grown > failures, card.failures > grown);
    }
  }

  /** What any number of resumed calls keeps. */
  ghost predicate Since(q: Setting, start: Files<string>, host0: Host, card: Files<string>, host: Host, failed: bool) {
    && Archived(q, card, host) && SameArchive(host0, host) && PartsKept(q, Removals(host0), start, card)
    && (!failed && Forward(q, start, host0) ==> Forward(q, card, host))
  }

  /** What one call in which every step goes well does, by the mode it starts in. */
  ghost predicate LastStep(q: Setting, before: Files<string>, hostBefore: Host, card: Files<string>, host: Host,
                           outcome: QuarantineOutcome) {
    match ResumeMode(q, before, hostBefore)
    case None => card == before && host == hostBefore
    case Some(AlreadyCompleted) => card == before && host == hostBefore
    case Some(Finish) => Removed(card, host)
    case Some(Rollback) =>
      if Free(q, Removals(hostBefore), before) then Restored(card, host) else PartsKept(q, Removals(host), before, card)
  }

  lemma LastCall(q: Setting, host0: Host, before: Files<string>, hostBefore: Host, card: Files<string>, host: Host,
                 outcome: QuarantineOutcome)
    requires Archived(q, before, hostBefore) && SameArchive(host0, hostBefore) && SameArchive(host0, host)
    requires LastStep(q, before, hostBefore, card, host, outcome)
    ensures Forward(q, before, hostBefore) ==> Removed(card, host)
    ensures || Removed(card, host) || Restored(card, host)
            || !Free(q, Removals(host), card)
            || (Journals(host, Completed) && Missing(card, Removals(host)) != Members(Removals(host)))
  {
    ModeOf(q, before, hostBefore);
    var original, removals := hostBefore.archive.value, Removals(hostBefore);
    if NoParts(q, original, removals, before) && Missing(before, removals) == Members(removals) {
      AllGone(q, original, removals, before);
    }
    hide ResumeMode, Derived, PartsApart, Snap;
  }

  lemma SinceNow(q: Setting, card: Files<string>, host: Host)
    requires Archived(q, card, host)
    ensures Since(q, card, host, card, host, false)
  {
    hide Archived, Forward;
    ArchivedParts(q, card, host);
  }

  lemma SinceSince(q: Setting, start: Files<string>, host0: Host, mid: Files<string>, hostMid: Host,
                   card: Files<string>, host: Host,
                   failed0: bool, failed1: bool)
    requires Since(q, start, host0, mid, hostMid, failed0) && Since(q, mid, hostMid, card, host, failed1)
    ensures Since(q, start, host0, card, host, failed0 || failed1)
  {
    hide Archived, Forward;
  }

  lemma SinceParts(q: Setting, start: Files<string>, host0: Host, card: Files<string>, host: Host, failed: bool)
    requires Since(q, start, host0, card, host, failed)
    ensures Archived(q, card, host) && SameArchive(host0, host) && PartsKept(q, Removals(host), start, card)
    ensures host.Destination? && host.archive.Some? && host.manifest.Some? && host.journal.Some?
    ensures !failed && Forward(q, start, host0) ==> Forward(q, card, host)
  {
    hide Forward;
  }

  lemma ArchivedParts(q: Setting, card: Files<string>, host: Host)
    requires Archived(q, card, host)
    ensures host.Destination? && host.archive.Some? && host.manifest.Some? && host.journal.Some?
  {
  }

  /** What each mode of a resume starts from. */
  lemma ResumeFacts(q: Setting, card: Files<string>, host: Host)
    requires Archived(q, card, host) && ResumeMode(q, card, host).Some?
    ensures host.Destination? && host.archive.Some? && host.manifest.Some? && host.journal.Some? && !Journals(host, RolledBack)
    ensures match ResumeMode(q, card, host).value
            case Finish => Forward(q, card, host) && Journals(host, Pending)
            case AlreadyCompleted => Missing(card, Removals(host)) == Members(Removals(host))
            case Rollback => !Forward(q, card, host)
    ensures PartsKept(q, Removals(host), card, card)
  {
    ModeOf(q, card, host);
    hide ResumeMode, PartsApart, Snap;
  }

  lemma ForwardMissing(q: Setting, card: Files<string>, host: Host)
    requires Forward(q, card, host)
    ensures host.journal.value.completed + Missing(card, Removals(host)) == Missing(card, Removals(host))
  {
  }

  lemma ForwardIsArchived(q: Setting, card: Files<string>, host: Host)
    requires Forward(q, card, host)
    ensures Archived(q, card, host) && !Journals(host, RolledBack)
  {
  }

  lemma ForwardOnceJournaled(q: Setting, card: Files<string>, host: Host)
    ensures host.Destination? && host.journal.Some? && Forward(q, card, host) ==> Archived(q, card, host)
  {
  }

  datatype QuarantineOutcome =
    Declined | Failed | Emptied | AlreadyEmptied | PutBack | FailedAndPutBack | FailedBadly | Crashed

  lemma ForwardArchive(q: Setting, card: Files<string>, host: Host)
    requires Forward(q, card, host)
    ensures host.Destination? && host.archive.Some? && host.manifest.Some? && host.journal.Some?
  {
  }

  lemma RemovalThere(q: Setting, card: Files<string>, host: Host, r: string)
    requires Forward(q, card, host)
    requires r in Removals(host) && r !in Missing(card, Removals(host))
    ensures r in card && r in host.manifest.value.files && Identify(q, card[r]) == host.manifest.value.files[r]
  {
    hide PartsApart, NoParts, Identify;
  }

  lemma StillForward(q: Setting, before: Files<string>, after: Files<string>, host: Host, r: string)
    requires Forward(q, before, host) && Journals(host, Pending) && r in Removals(host)
    requires Updated(before, after, r, None)
    ensures var removals := Removals(host);
            Forward(q, after, host) && Missing(after, removals) == Missing(before, removals) + {r}
  {
    DerivedWithout(q, host.archive.value, Removals(host), before, after, r);
    hide Derived, PartsApart, NoParts, Updated, Snap;
  }

  lemma JournalForward(q: Setting, card: Files<string>, before: Host, host: Host, completed: set<string>)
    requires Forward(q, card, before) && Journals(before, Pending)
    requires completed == Missing(card, Removals(before))
    requires host in {before, before.(journal := Some(Journal(Pending, q.id(before.manifest.value), completed)))}
    ensures Forward(q, card, host) && Journals(host, Pending)
    ensures SameArchive(before, host) && Removals(host) == Removals(before)
  {
    hide Derived, PartsApart, NoParts, Snap;
  }

  lemma EverythingGone(q: Setting, card: Files<string>, host: Host, completed: set<string>)
    requires Forward(q, card, host) && completed == Missing(card, Removals(host))
    requires var removals := Removals(host); forall j | 0 <= j < |removals| :: removals[j] in completed
    ensures completed == Members(Removals(host)) && |Members(Removals(host)) - completed| == 0
    ensures host.Destination? && host.manifest.Some? && host.journal.Some?
  {
    ForwardArchive(q, card, host);
    hide Forward;
    assert Members(Removals(host)) - completed == {};
  }

  lemma CompletedForward(q: Setting, card: Files<string>, before: Host, host: Host, completed: set<string>)
    requires Forward(q, card, before) && Journals(before, Pending)
    requires completed == Missing(card, Removals(before)) == Members(Removals(before))
    requires host in {before, before.(journal := Some(Journal(Completed, q.id(before.manifest.value), completed)))}
    ensures Forward(q, card, host) && SameArchive(before, host) && Removals(host) == Removals(before)
    ensures if host == before then Journals(host, Pending) else Removed(card, host) && Journals(host, Completed)
    ensures host == before.(journal := Some(Journal(Completed, q.id(before.manifest.value), completed))) ==> host != before
    ensures Missing(card, Removals(host)) == completed
  {
    AllGone(q, before.archive.value, Removals(before), card);
    hide Derived, PartsApart, NoParts, Snap;
  }

  /** A rollback that was cut while it wrote a temporary, which is still there. */
  ghost predicate CutOnTemporary(q: Setting, f: Fate, card: Files<string>, before: Host, host: Host) {
    f.Crashes? && host == before && !NoParts(q, Original(host), Removals(host), card)
  }

  /** A rollback that was cut with a file back on the card. */
  ghost predicate CutBehindOne(f: Fate, before: Files<string>, card: Files<string>, hostBefore: Host, host: Host) {
    f.Crashes? && host == hostBefore && exists r <- Removals(host) :: r !in before && r in card
  }

  predicate Doomed(fates: seq<Fate>) { Head(fates) == CUT_SHORT || CutAfterOne(fates) }

  /** With a cut ahead, it has not come yet as long as no removal was missing. */
  ghost predicate CutAhead(q: Setting, removals: seq<string>, start: Files<string>, fates0: seq<Fate>,
                           card: Files<string>, fates: seq<Fate>, done: nat) {
    Doomed(fates0) && Free(q, removals, start) ==>
      fates == fates0 && card == start && done <= |removals| && forall j | 0 <= j < done :: removals[j] in start
  }

  lemma CutBegins(q: Setting, removals: seq<string>, start: Files<string>, fates0: seq<Fate>)
    ensures CutAhead(q, removals, start, fates0, start, fates0, 0)
  {
  }

  lemma CutStep(q: Setting, host: Host, start: Files<string>, fates0: seq<Fate>, before: Files<string>,
                fates: seq<Fate>, done: nat, f: Fate, after: Files<string>, next: seq<Fate>)
    requires CutAhead(q, Removals(host), start, fates0, before, fates, done) && done < |Removals(host)|
    requires var r := Removals(host)[done];
             && (r in before ==> f.Well? && next == fates && after == before)
             && (r !in before && q.part(r) !in before && Head(fates) == CUT_SHORT ==>
                   f.Crashes? && !NoParts(q, Original(host), Removals(host), after))
             && (r !in before && q.part(r) !in before && CutAfterOne(fates) ==> f.Crashes? && r in after)
    ensures f.Well? ==> CutAhead(q, Removals(host), start, fates0, after, next, done + 1)
    ensures !f.Well? && Free(q, Removals(host), start) ==>
              && (Head(fates0) == CUT_SHORT ==> CutOnTemporary(q, f, after, host, host))
              && (CutAfterOne(fates0) ==> CutBehindOne(f, start, after, host, host))
  {
    assert Removals(host)[done] in Removals(host);
    hide NoParts;
  }

  lemma CutEnds(q: Setting, removals: seq<string>, start: Files<string>, fates0: seq<Fate>, card: Files<string>,
                fates: seq<Fate>)
    requires CutAhead(q, removals, start, fates0, card, fates, |removals|)
    ensures Doomed(fates0) && Free(q, removals, start) ==> Missing(start, removals) == {}
  {
  }

  lemma SameArchiveNow(host: Host)
    ensures host.Destination? ==> SameArchive(host, host)
  {
  }

  lemma SameArchiveOn(a: Host, b: Host, c: Host)
    requires SameArchive(a, b) && SameArchive(b, c)
    ensures SameArchive(a, c) && Removals(c) == Removals(a) && Original(c) == Original(a)
  {
  }

  lemma RecordSteps(fates: seq<Fate>)
    ensures Head(fates) == Well ==> Synced(fates) == Head(Rest(fates)) && Onward(fates) == Rest(Rest(fates))
    ensures Head(fates) != Well ==> Synced(fates) == Head(fates)
    ensures fates == [] ==> Synced(fates) == Well && Onward(fates) == []
  {
  }

  lemma OneFewer(removals: seq<string>, completed: set<string>, i: nat)
    requires i < |removals| && removals[i] !in completed
    ensures var all, r := Members(removals), removals[i]; |all - (completed + {r})| == |all - completed| - 1
  {
    var all, r := Members(removals), removals[i];
    assert r in all && all - completed == all - (completed + {r}) + {r};
  }

  lemma SchedulesStep()
    ensures Synced(LEAVES_REFUSED) == Fails(None) && Head(LEAVES_REFUSED) == Well && CutAfterOne(Onward(LEAVES_REFUSED))
    ensures Synced(LEAVES_TEMPORARY) == Fails(None) && Head(LEAVES_TEMPORARY) != Well
    ensures Head(Onward(LEAVES_TEMPORARY)) == CUT_SHORT && LEAVES_TEMPORARY != LEAVES_REFUSED
  {
    var f: Fate, c: Fate := Fails(None), Crashes(None);
    assert Rest([Well, f, Well, Well, c]) == [f, Well, Well, c] && Rest([f, Well, Well, c]) == [Well, Well, c];
    assert Rest([Well, Well, c]) == [Well, c] && Rest([Well, c]) == [c];
  }

  lemma OneOfTwo(fates: seq<Fate>, wells: nat)
    ensures !(Ahead(fates, wells, LEAVES_REFUSED) && Ahead(fates, wells, LEAVES_TEMPORARY))
  {
    assert |LEAVES_REFUSED| == 5 && |LEAVES_TEMPORARY| == 2;
  }

  lemma ForwardKept(q: Setting, before: Files<string>, hostBefore: Host, after: Files<string>, host: Host)
    requires Forward(q, before, hostBefore) && Forward(q, after, host) && SameArchive(hostBefore, host)
    requires Missing(before, Removals(hostBefore)) <= Missing(after, Removals(hostBefore))
    ensures PartsKept(q, Removals(hostBefore), before, after)
    ensures NoneTaken(q, Removals(hostBefore), before) ==> NoneTaken(q, Removals(hostBefore), after)
  {
    var removals, original := Removals(hostBefore), hostBefore.archive.value;
    forall r <- removals
      ensures q.part(r) in before <==> q.part(r) in after
      ensures r !in before ==> r !in after
    {
      assert q.part(r) in original ==> Get(before, q.part(r)) == Get(original, q.part(r)) == Get(after, q.part(r));
      assert r !in before ==> r in Missing(before, removals);
    }
    hide Derived, Snap;
  }

  lemma TakenStays(q: Setting, removals: seq<string>, before: Files<string>, after: Files<string>)
    requires PartsKept(q, removals, before, after)
    ensures !Free(q, removals, before) ==> !Free(q, removals, after)
  {
  }

  lemma NoneTakenIsFree(q: Setting, removals: seq<string>, card: Files<string>)
    ensures NoneTaken(q, removals, card) ==> Free(q, removals, card)
    ensures removals != [] ==> Members(removals) != {}
  {
    assert removals != [] ==> removals[0] in Members(removals);
  }

  lemma KeptOn(q: Setting, removals: seq<string>, a: Files<string>, b: Files<string>, c: Files<string>)
    requires PartsKept(q, removals, a, b) && PartsKept(q, removals, b, c)
    ensures PartsKept(q, removals, a, c)
  {
  }

  lemma TemporaryTaken(q: Setting, card: Files<string>, host: Host)
    requires Archived(q, card, host)
    ensures !NoParts(q, Original(host), Removals(host), card) ==> !Free(q, Removals(host), card)
  {
    hide Snap;
  }

  /** How the two cut rollbacks leave a journal and a card that no resume can do anything with. */
  lemma CutIsStuck(q: Setting, f: Fate, before: Files<string>, hostBefore: Host, card: Files<string>, host: Host)
    requires Archived(q, card, host)
    ensures CutOnTemporary(q, f, card, hostBefore, host) && Journals(hostBefore, Pending) ==>
              StuckOnTemporary(q, card, host)
    ensures CutBehindOne(f, before, card, hostBefore, host) && Journals(hostBefore, Completed) ==>
              StuckRefused(q, card, host)
    ensures CutOnTemporary(q, f, card, hostBefore, host) || CutBehindOne(f, before, card, hostBefore, host) ==> f.Crashes?
  {
    ModeOf(q, card, host);
    TemporaryTaken(q, card, host);
    hide ResumeMode, Free, NoParts, Derived, Snap;
    if r :| r in Removals(host) && r in card {
      assert r in Members(Removals(host)) && r !in Missing(card, Removals(host));
    }
  }

  lemma StepsOf(q: Setting, resume: bool, card: Files<string>, host: Host)
    ensures StepsBefore(q, resume, card, host) ==
            if resume then 2 + 4 * |Members(Removals(host)) - Missing(card, Removals(host))| else 9 + 4 * |Owned(q, card)|
  {
  }

  lemma CutOnTemporaryFacts(q: Setting, f: Fate, card: Files<string>, before: Host, host: Host)
    requires Archived(q, card, host)
    ensures CutOnTemporary(q, f, card, before, host) ==>
              f.Crashes? && !NoParts(q, Original(host), Removals(host), card) && !Free(q, Removals(host), card)
  {
    TemporaryTaken(q, card, host);
    hide Archived;
  }

  lemma RolledBackSince(q: Setting, start: Files<string>, host0: Host, card: Files<string>, host: Host, failed: bool)
    requires Archived(q, card, host) && SameArchive(host0, host) && PartsKept(q, Removals(host), start, card)
    requires !Forward(q, start, host0)
    ensures Since(q, start, host0, card, host, failed) && Removals(host) == Removals(host0)
  {
    hide Archived, Forward;
  }

  lemma ProceededSince(q: Setting, start: Files<string>, host0: Host, card: Files<string>, host: Host, failed: bool)
    requires Archived(q, card, host) && SameArchive(host0, host) && PartsKept(q, Removals(host), start, card)
    requires !failed ==> Forward(q, card, host)
    ensures Since(q, start, host0, card, host, failed)
    ensures host.Destination? && host.archive == host0.archive && Removals(host) == Removals(host0)
  {
    hide Archived, Forward;
  }

  lemma ReviewedOwned(q: Setting, card: Files<string>)
    ensures Reviewed(q, card) ==> {q.backup, q.checkpoint, q.stage2} <= Owned(q, card)
  {
  }

  /** Right after the publication everything is still there, and there is something to remove. */
  lemma NothingMissingYet(q: Setting, card: Files<string>, removals: seq<string>, host: Host)
    requires Chosen(q, card, removals) && Members(removals) == Owned(q, card) && Removals(host) == removals
    requires Reviewed(q, card)
    ensures Members(Removals(host)) - Missing(card, Removals(host)) == Owned(q, card) && Removals(host) != []
    ensures NamesFree(q, false, card, NoDestination) ==> NoneTaken(q, Removals(host), card)
  {
    assert q.backup in removals;
    assert forall r <- removals :: r in Members(removals);
  }

  lemma NamesFacts(q: Setting, resume: bool, card: Files<string>, host: Host)
    ensures resume && NamesFree(q, resume, card, host) ==>
              NoneTaken(q, Removals(host), card) && Free(q, Removals(host), card)
    ensures !resume ==> NamesFree(q, resume, card, host) == NamesFree(q, false, card, NoDestination)
  {
  }

  /** What removed and restored mean for the card. */
  lemma EndsAs(card: Files<string>, host: Host)
    ensures Removed(card, host) ==> card == Original(host) - Members(Removals(host))
    ensures Restored(card, host) ==> card == Original(host)
    ensures host.Destination? && host.archive.Some? ==> Original(host) == host.archive.value
    ensures Removed(card, host) ==> host.Destination? && host.journal.Some?
  {
  }

  lemma RestoreBegins(q: Setting, start: Files<string>, host: Host)
    requires Archived(q, start, host)
    ensures var original, removals := host.archive.value, host.manifest.value.removals;
            && host.manifest.value == Snap(q, original, removals) && PartsApart(q, removals)
            && Restoring(q, original, removals, start, start, 0)
            && Original(host) == original && Removals(host) == removals
  {
    hide Derived, PartsApart, Snap;
  }

  lemma RestoringFacts(q: Setting, original: Files<string>, removals: seq<string>, start: Files<string>,
                       card: Files<string>, done: nat)
    requires Restoring(q, original, removals, start, card, done) && done < |removals|
    ensures Derived(q, original, removals, card) && removals[done] in removals
    ensures q.part(removals[done]) in card && removals[done] !in card ==> !Free(q, removals, start)
  {
    hide Derived;
  }

  lemma PartsKeptSince(q: Setting, original: Files<string>, removals: seq<string>, start: Files<string>,
                       before: Files<string>, card: Files<string>, done: nat)
    requires Restoring(q, original, removals, start, before, done) && PartsKept(q, removals, before, card)
    ensures PartsKept(q, removals, start, card)
  {
    hide Derived;
  }

  lemma StillArchived(q: Setting, start: Files<string>, host: Host, card: Files<string>)
    requires Archived(q, start, host) && !Journals(host, RolledBack)
    requires Derived(q, host.archive.value, host.manifest.value.removals, card)
    ensures Archived(q, card, host)
  {
    hide Derived, PartsApart, Snap;
  }

  lemma RestoreEnds(q: Setting, start: Files<string>, host: Host, card: Files<string>)
    requires Archived(q, start, host)
    requires var removals := host.manifest.value.removals;
             Restoring(q, host.archive.value, removals, start, card, |removals|)
    ensures var removals := host.manifest.value.removals;
            Free(q, removals, start) && PartsKept(q, removals, start, card)
    ensures card == host.archive.value
  {
    var removals := host.manifest.value.removals;
    forall r <- removals ensures r in card {
      var j :| 0 <= j < |removals| && removals[j] == r;
    }
    AllBack(q, host.archive.value, removals, card);
  }

  lemma RolledBackEnds(q: Setting, start: Files<string>, card: Files<string>, before: Host, host: Host)
    requires Archived(q, start, before) && before.archive == Some(card) && !Journals(before, RolledBack)
    requires host in {before, before.(journal := Some(Journal(RolledBack, q.id(before.manifest.value), {})))}
    ensures Archived(q, card, host)
    ensures host != before ==> Restored(card, host)
  {
  }
}
