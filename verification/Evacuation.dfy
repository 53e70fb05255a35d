/** The evacuation of stock backups: copy off the card, verify, then clear their names (installer/media.py). */
module Evacuation {
  import opened Common
  import opened MediaSteps
  import opened Quarantine
  import opened QuarantineRuns
  import opened RecoveryCheckpoint

  /** The backup, an archived older one and the checkpoint, as far as they are there; None if any is not in order. */
  function Selection(q: Setting, older: string, card: Files<string>): Option<set<string>> {
    if q.backup !in card || |card[q.backup]| != STOCK_BACKUP_SIZE then None
    else if older in card && |card[older]| != STOCK_BACKUP_SIZE then None
    else if q.checkpoint in card
            && !(q.stage2 in card && |card[q.stage2]| < 0x1_0000_0000
                 && Accepts(q.hash, card[q.backup], card[q.checkpoint], card[q.stage2], None, None, true)) then None
    else Some(set n <- {q.backup, older, q.checkpoint} | n in card)
  }

  /**
   * There is a full backup, an older one is full as well, and a checkpoint is one the card tools accept beside the backup
   * and the stage-2 file, its bindings unverified.
   */
  predicate InOrder(q: Setting, older: string, card: Files<string>) {
    && q.backup in card && |card[q.backup]| == 0x7C0000 && (older in card ==> |card[older]| == 0x7C0000)
    && (q.checkpoint in card ==>
          && q.stage2 in card && |card[q.stage2]| < 0x1_0000_0000
          && Accepts(q.hash, card[q.backup], card[q.checkpoint], card[q.stage2], None, None, true))
  }

  lemma SelectionExactly(q: Setting, older: string, card: Files<string>)
    ensures Selection(q, older, card).Some? <==> InOrder(q, older, card)
    ensures Selection(q, older, card).Some? ==>
              forall n :: n in Selection(q, older, card).value <==> n in {q.backup, older, q.checkpoint} && n in card
  {
    hide Accepts;
  }

  /** No file lies under the name of a temporary that putting a selected file back would use. */
  ghost predicate SpareNames(q: Setting, older: string, card: Files<string>) {
    Selection(q, older, card).Some? ==> forall n <- Selection(q, older, card).value :: q.part(n) !in card
  }

  datatype Ending = Unfit | NotPublished | Cleared | Undone | Stranded | CutOff

  class Evacuator {
    const q: Setting
    const older: string
    const card: Card<string>
    var archive: Option<Files<string>>

    constructor (q: Setting, older: string, card: Card<string>)
      ensures this.q == q && this.older == older && this.card == card && archive == None
    {
      this.q, this.older, this.card, archive := q, older, card, None;
    }

    /** The removals in order: the checkpoint, which needs the backup, before anything else. */
    method Order(names: set<string>) returns (order: seq<string>)
      ensures Members(order) == names && Distinct(order)
      ensures q.checkpoint in names ==> order != [] && order[0] == q.checkpoint
    {
      var others := Listed(names - {q.checkpoint});
      order := if q.checkpoint in names then [q.checkpoint] + others else others;
      MembersJoin([q.checkpoint], others);
      assert Members([q.checkpoint]) == {q.checkpoint};
      DistinctJoin([q.checkpoint], others);
    }

    /** All removals in order; `removed` are the ones that are gone. */
    method RemoveAll(ghost original: Files<string>, order: seq<string>) returns (f: Fate, removed: seq<string>)
      requires card.files == original && PartsApart(q, order) && forall r <- order :: r in original
      requires Distinct(order)
      modifies card
      ensures removed <= order && Derived(q, original, order, card.files) && NoParts(q, original, order, card.files)
      ensures Missing(card.files, order) == Members(removed)
      ensures card.failures == if f.Fails? then old(card.failures) + 1 else old(card.failures)
      ensures NoCrash(old(card.fates)) ==> !f.Crashes? && NoCrash(card.fates)
      ensures card.Due() == old(card.Due())
      ensures f.Well? ==> removed == order
      ensures old(card.fates) == [] ==> card.fates == [] && f == Well
    {
      hide Derived, PartsApart, NoParts, Missing;
      removed := [];
      NothingGone(q, original, order);
      f := Well;
      for i := 0 to |order|
        invariant f.Well? && removed == order[..i]
        invariant Derived(q, original, order, card.files) && NoParts(q, original, order, card.files)
        invariant Missing(card.files, order) == Members(removed)
        invariant card.failures == old(card.failures) && (old(card.fates) == [] ==> card.fates == [])
        invariant (NoCrash(old(card.fates)) ==> NoCrash(card.fates)) && card.Due() == old(card.Due())
      {
        ghost var before := card.files;
        StillThere(order, before, i);
        f := card.Unlink(order[i]);
        if !f.Well? {
          return;
        }
        DerivedWithout(q, original, order, before, card.files, order[i]);
        MembersAdd(order, i);
        removed := order[..i + 1];
        f := card.Sync();
        if !f.Well? {
          return;
        }
      }
      assert order[..|order|] == order;
    }

    /** What was removed is written back in the same order, each file through its temporary. */
    method RestoreAll(ghost original: Files<string>, order: seq<string>, removed: seq<string>,
                      snapshots: Files<string>) returns (f: Fate)
      requires snapshots.Keys == Members(order) && PartsApart(q, order)
      requires forall r <- order :: r in original && r in snapshots && snapshots[r] == original[r]
      requires Derived(q, original, order, card.files)
      requires removed <= order && Missing(card.files, order) == Members(removed)
      modifies card
      ensures Derived(q, original, order, card.files)
      ensures f.Well? ==> card.files == original
      ensures card.failures == if f.Fails? then old(card.failures) + 1 else old(card.failures)
      ensures NoCrash(old(card.fates)) ==> !f.Crashes? && NoCrash(card.fates)
      ensures Free(q, order, old(card.files)) ==> card.Due() == old(card.Due())
      ensures old(card.fates) == [] ==> card.fates == [] && (f.Well? <==> Free(q, order, old(card.files)))
    {
      ghost var start := card.files;
      hide *;
      f := Well;
      RestoreStarts(q, original, order, start);
      for i := 0 to |removed|
        invariant f.Well? && Restoring(q, original, order, start, card.files, i)
        invariant Missing(card.files, order) <= Members(removed)
        invariant card.failures == old(card.failures) && (old(card.fates) == [] ==> card.fates == [])
        invariant NoCrash(old(card.fates)) ==> NoCrash(card.fates)
        invariant Free(q, order, start) ==> card.Due() == old(card.Due())
      {
        ghost var before := card.files;
        RestoringAt(q, original, order, removed, start, before, i);
        f := RestoreOne(original, order, removed[i], snapshots[removed[i]]);
        if !f.Well? {
          return;
        }
        RestoringStep(q, original, order, start, before, card.files, i);
        MissingShrinks(q, order, before, card.files, removed[i]);
      }
      RestoredAll(q, original, order, removed, start, card.files);
    }

    /**
     * One call. Nothing leaves the card before the archive holds all of it, a crash on the way never leaves a
     * checkpoint without its backup, and a single failing step leaves the card as it was; putting a file back over a
     * taken name is a failing step, too.
     */
    method Evacuate() returns (ending: Ending)
      requires archive == None && Apart(q, card.files)
      requires forall n <- {q.backup, older, q.checkpoint} :: q.owned(n)
      modifies card, this`archive
      ensures ending == Unfit <==> Selection(q, older, old(card.files)).None?
      ensures ending in {Unfit, NotPublished} ==> card.files == old(card.files)
      ensures ending != Unfit ==>
                forall n <- old(card.files) ::
                  (n in card.files && card.files[n] == old(card.files)[n])
                  || (archive.Some? && n in archive.value && archive.value[n] == old(card.files)[n])
      ensures ending == Cleared ==>
                var names := Selection(q, older, old(card.files)).value;
                card.files == old(card.files) - names && archive.Some? && archive.value.Keys == names
      ensures ending == Unfit <==> !InOrder(q, older, old(card.files))
      ensures ending == Cleared ==>
                && (forall n :: n in card.files <==> n in old(card.files) && n !in {q.backup, older, q.checkpoint})
                && (forall n <- card.files :: card.files[n] == old(card.files)[n])
                && archive.Some? && forall n | n in {q.backup, older, q.checkpoint} && n in old(card.files) ::
                     n in archive.value && archive.value[n] == old(card.files)[n]
      ensures ending == Undone ==> card.files == old(card.files)
      ensures card.failures == old(card.failures) && ending != Unfit && q.checkpoint in card.files ==> q.backup in card.files
      ensures card.failures == old(card.failures) + 1 && ending != CutOff ==> ending in {NotPublished, Undone}
      ensures NoCrash(old(card.fates)) ==> ending != CutOff
      ensures ending != Unfit && SpareNames(q, older, old(card.files)) ==>
                && card.failures <= old(card.failures) + FailsIn(old(card.fates))
                && (OneFails(old(card.fates)) ==> ending in {Cleared, NotPublished, Undone})
      ensures old(card.fates) == [] && ending != Unfit ==> ending == Cleared
    {
      hide Derived, PartsApart, NoParts, Missing, Apart, Selection, InOrder, SpareNames, NoneTaken, NoCrash, FailsIn, OneFails,
           Card.Due, Head, Rest;
      NothingPlanned();
      ghost var original := card.files;
      Spending(card);
      SelectionExactly(q, older, original);
      var selected := Selection(q, older, card.files);
      if selected.None? {
        return Unfit;
      }
      SelectionThere(q, older, original);
      var snapshots := map n <- selected.value :: card.files[n];
      var f := card.Next();
      if f.Well? {
        archive := Some(snapshots);
        f := card.Sync();
      }
      Spending(card);
      if !f.Well? {
        return if f.Fails? then NotPublished else CutOff;
      }
      var order := Order(selected.value);
      OrderFits(q, older, original, order, snapshots);
      ending := Clear(original, order, snapshots);
      Spending(card);
    }

    /** The removals, and their undoing if one fails. */
    method Clear(ghost original: Files<string>, order: seq<string>, snapshots: Files<string>) returns (ending: Ending)
      requires card.files == original && PartsApart(q, order) && Distinct(order) && snapshots.Keys == Members(order)
      requires forall r <- order :: r in original && r in snapshots && snapshots[r] == original[r]
      requires q.backup in order && (q.checkpoint in original ==> order != [] && order[0] == q.checkpoint)
      modifies card
      ensures ending in {Cleared, Undone, Stranded, CutOff}
      ensures forall n <- original ::
                (n in card.files && card.files[n] == original[n]) || (n in snapshots && snapshots[n] == original[n])
      ensures ending == Cleared ==> card.files == original - Members(order)
      ensures ending == Undone ==> card.files == original
      ensures card.failures >= old(card.failures)
      ensures card.failures == old(card.failures) && q.checkpoint in card.files ==> q.backup in card.files
      ensures card.failures == old(card.failures) ==> ending in {Cleared, CutOff}
      ensures card.failures == old(card.failures) + 1 && ending != CutOff ==> ending == Undone
      ensures NoCrash(old(card.fates)) ==> ending != CutOff
      ensures NoneTaken(q, order, original) ==> card.Due() == old(card.Due())
      ensures old(card.fates) == [] ==> ending == Cleared
    {
      hide Derived, PartsApart, NoParts, Missing, Distinct;
      var f, removed := RemoveAll(original, order);
      NothingLost(q, original, order, card.files, snapshots);
      Paired(q, original, order, removed, card.files);
      if f.Well? {
        AllGone(q, original, order, card.files);
        return Cleared;
      }
      if f.Crashes? {
        return CutOff;
      }
      NoneTakenYet(q, original, order, card.files);
      f := RestoreAll(original, order, removed, snapshots);
      NothingLost(q, original, order, card.files, snapshots);
      ending := if f.Well? then Undone else if f.Fails? then Stranded else CutOff;
    }

    method RestoreOne(ghost original: Files<string>, ghost order: seq<string>, r: string, content: Bytes)
      returns (f: Fate)
      requires Derived(q, original, order, card.files) && PartsApart(q, order) && r in order
      requires r in original && content == original[r]
      modifies card
      ensures Derived(q, original, order, card.files)
      ensures f.Well? ==> OneBack(q, order, old(card.files), card.files, r)
      ensures card.failures == if f.Fails? then old(card.failures) + 1 else old(card.failures)
      ensures NoCrash(old(card.fates)) ==> !f.Crashes? && NoCrash(card.fates)
      ensures r in old(card.files) || q.part(r) !in old(card.files) ==> card.Due() == old(card.Due())
      ensures old(card.fates) == [] ==>
                card.fates == [] && (f.Well? <==> r in old(card.files) || q.part(r) !in old(card.files))
    {
      ghost var before := card.files;
      assert r in before ==> before[r] == content;
      hide Derived, PartsApart, Updated, Renamed, Interrupted, OneBack, PartsKept, NoParts;
      NothingChanged(q, order, before, r);
      if r in card.files {
        if card.files[r] != content {
          return Fails(None);
        }
        return Well;
      }
      f := card.WriteNew(q.part(r), content);
      ghost var mid := card.files;
      if q.part(r) !in before {
        HalfBack(q, original, order, before, mid, r);
      }
      if !f.Well? {
        return;
      }
      f := card.Rename(q.part(r), r);
      if !f.Well? {
        return;
      }
      OneBackVia(q, original, order, before, mid, card.files, r);
      f := card.Sync();
    }
  }

  /** Removals take no name. */
  lemma NoneTakenYet(q: Setting, original: Files<string>, order: seq<string>, card: Files<string>)
    requires NoParts(q, original, order, card)
    ensures NoneTaken(q, order, original) ==> Free(q, order, card)
  {
  }

  lemma RestoreStarts(q: Setting, original: Files<string>, order: seq<string>, start: Files<string>)
    requires Derived(q, original, order, start)
    ensures Restoring(q, original, order, start, start, 0)
  {
    hide Derived;
  }

  lemma RestoringAt(q: Setting, original: Files<string>, order: seq<string>, removed: seq<string>,
                    start: Files<string>, card: Files<string>, i: nat)
    requires Restoring(q, original, order, start, card, i) && removed <= order && i < |removed|
    ensures Derived(q, original, order, card) && removed[i] in order && removed[i] == order[i] && i < |order|
    ensures removed[i] !in card && q.part(removed[i]) in card ==> !Free(q, order, start)
  {
    hide Derived;
  }

  lemma MissingShrinks(q: Setting, order: seq<string>, before: Files<string>, after: Files<string>, r: string)
    requires OneBack(q, order, before, after, r)
    ensures Missing(after, order) <= Missing(before, order)
  {
  }

  lemma RestoredAll(q: Setting, original: Files<string>, order: seq<string>, removed: seq<string>,
                    start: Files<string>, card: Files<string>)
    requires Restoring(q, original, order, start, card, |removed|) && removed <= order
    requires Missing(card, order) <= Members(removed)
    ensures card == original && Free(q, order, start)
  {
    forall x <- removed ensures x in card {
      var j :| 0 <= j < |removed| && removed[j] == x;
      assert order[j] == x;
    }
    assert forall r <- order :: r !in card ==> r in Missing(card, order);
    AllBack(q, original, order, card);
  }

  lemma SelectionThere(q: Setting, older: string, original: Files<string>)
    ensures Selection(q, older, original).Some? ==>
              Selection(q, older, original).value <= original.Keys && q.backup in original
  {
  }

  lemma OrderFits(q: Setting, older: string, original: Files<string>, order: seq<string>, snapshots: Files<string>)
    requires Selection(q, older, original) == Some(Members(order)) && Apart(q, original)
    requires forall n <- {q.backup, older, q.checkpoint} :: q.owned(n)
    requires snapshots == map n <- Members(order) :: original[n]
    ensures PartsApart(q, order) && snapshots.Keys == Members(order)
    ensures forall r <- order :: r in original && r in snapshots && snapshots[r] == original[r]
    ensures q.backup in original && q.backup in order
    ensures SpareNames(q, older, original) ==> NoneTaken(q, order, original)
    ensures q.checkpoint in original ==> q.checkpoint in Members(order)
  {
    assert forall r <- order :: r in Members(order);
    assert q.backup in Members(order);
  }

  lemma NothingLost(q: Setting, original: Files<string>, order: seq<string>, card: Files<string>,
                    snapshots: Files<string>)
    requires Derived(q, original, order, card) && PartsApart(q, order) && snapshots.Keys == Members(order)
    requires forall r <- order :: r in original && r in snapshots && snapshots[r] == original[r]
    ensures forall n <- original ::
              (n in card && card[n] == original[n]) || (n in snapshots && snapshots[n] == original[n])
  {
    forall n <- original ensures (n in card && card[n] == original[n]) || (n in snapshots && snapshots[n] == original[n]) {
      if n !in order {
        assert Get(card, n) == Get(original, n);
      }
    }
  }

  /** As long as only removals have happened. */
  lemma Paired(q: Setting, original: Files<string>, order: seq<string>, removed: seq<string>, card: Files<string>)
    requires Derived(q, original, order, card) && NoParts(q, original, order, card) && Missing(card, order) == Members(removed)
    requires removed <= order && q.backup in order && (q.checkpoint in original ==> order != [] && order[0] == q.checkpoint)
    ensures q.checkpoint in card ==> q.backup in card
  {
    var c := q.checkpoint;
    assert c in order || IsPart(q, order, c) || Get(card, c) == Get(original, c);
    assert removed != [] ==> removed[0] == order[0] && removed[0] in Members(removed);
    assert forall r <- order :: r in Missing(card, order) <==> r !in card;
  }

  lemma NothingGone(q: Setting, original: Files<string>, order: seq<string>)
    requires PartsApart(q, order) && forall r <- order :: r in original
    ensures Derived(q, original, order, original) && NoParts(q, original, order, original)
    ensures Missing(original, order) == {} && Members(order[..0]) == {}
  {
  }

  lemma StillThere(order: seq<string>, card: Files<string>, i: nat)
    requires i < |order| && Missing(card, order) == Members(order[..i])
    requires Distinct(order)
    ensures order[i] in card && order[i] in order
  {
    assert order[i] !in Members(order[..i]);
    assert order[i] !in Missing(card, order);
  }
}
