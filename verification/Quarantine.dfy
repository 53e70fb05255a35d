/** The quarantine of an inconsistent card: archive, journal and the decision a resume takes (installer/media.py). */
module Quarantine {
  import opened Common
  import opened MediaSteps
  import opened RecoveryCheckpoint

  datatype Identity = Identity(size: nat, digest: Bytes)

  datatype Snapshot = Snapshot(files: map<string, Identity>, removals: seq<string>)

  datatype Phase = Pending | Completed | RolledBack

  datatype Journal = Journal(phase: Phase, snapshot: Bytes, completed: set<string>)

  /** The private destination, which is filled in this order. */
  datatype Host = NoDestination | Destination(archive: Option<Files<string>>, manifest: Option<Snapshot>,
                                              journal: Option<Journal>)

  /**
   * The hash, the identity of a snapshot, the names of the recovery tuple, the installer names at the root, and the
   * name of the temporary that a file is restored through.
   */
  datatype Setting = Setting(
    hash: Hasher, id: Snapshot -> Bytes, backup: string, checkpoint: string, stage2: string,
    owned: string -> bool, part: string -> string)

  function Identify(q: Setting, content: Bytes): Identity { Identity(|content|, q.hash(content)) }

  function Identities(q: Setting, files: Files<string>): map<string, Identity> {
    map n <- files :: Identify(q, files[n])
  }

  function Missing(card: Files<string>, removals: seq<string>): set<string> {
    set r <- removals | r !in card
  }

  function Snap(q: Setting, original: Files<string>, removals: seq<string>): Snapshot {
    Snapshot(Identities(q, original), removals)
  }

  /** The reviewed card, but for removals that are gone. */
  predicate Stable(q: Setting, card: Files<string>, s: Snapshot) {
    && (forall n <- card :: n in s.files && Identify(q, card[n]) == s.files[n])
    && (forall n <- s.files :: n in card || n in s.removals)
  }

  datatype Mode = AlreadyCompleted | Finish | Rollback

  /** No removal was journaled, or lies on the card, other than as the snapshot has it. */
  predicate Progress(q: Setting, card: Files<string>, s: Snapshot, completed: set<string>) {
    && (forall n <- completed :: n in s.removals)
    && (forall r <- s.removals :: r in s.files && (r in card ==> Identify(q, card[r]) == s.files[r]))
  }

  /** What a resume will do; None is a refusal. */
  function ResumeMode(q: Setting, card: Files<string>, host: Host): Option<Mode> {
    if host.Destination? && host.archive.Some? && host.manifest.Some? && host.journal.Some? then
      var s, j, missing := host.manifest.value, host.journal.value, Missing(card, host.manifest.value.removals);
      if j.snapshot != q.id(s) || j.phase == RolledBack || Identities(q, host.archive.value) != s.files
         || !Progress(q, card, s, j.completed) then None
      else if j.phase == Completed then
        if forall r <- s.removals :: r in missing then Some(AlreadyCompleted) else None
      else if Stable(q, card, s) && j.completed <= missing then Some(Finish)
      else Some(Rollback)
    else None
  }

  /** A first run is for a card whose universal checkpoint binds its backup but another stage 2. */
  predicate Reviewed(q: Setting, card: Files<string>) {
    && q.backup in card && q.checkpoint in card && q.stage2 in card
    && Inconsistent(q.hash, card[q.backup], card[q.checkpoint], card[q.stage2])
    && q.owned(q.backup) && q.owned(q.checkpoint) && q.owned(q.stage2)
  }

  /** Every installer name on the card, once. */
  predicate Chosen(q: Setting, card: Files<string>, removals: seq<string>) {
    && (forall r <- removals :: r in card && q.owned(r)) && (forall n <- card :: q.owned(n) ==> n in removals)
  }

  /** The temporaries are names of their own. */
  ghost predicate PartsApart(q: Setting, removals: seq<string>) {
    && (forall r <- removals :: q.part(r) !in removals)
    && (forall r, t | r in removals && t in removals && q.part(r) == q.part(t) :: r == t)
  }

  /** The names of the temporaries of these files differ from one another, and are no installer names. */
  ghost predicate Apart(q: Setting, card: Files<string>) {
    && (forall n <- card | q.owned(n) :: !q.owned(q.part(n)))
    && (forall n, m | n in card && m in card && q.owned(n) && q.owned(m) && q.part(n) == q.part(m) :: n == m)
  }

  ghost predicate IsPart(q: Setting, removals: seq<string>, n: string) {
    exists r <- removals :: q.part(r) == n
  }

  /** The card is the original but for removals that are gone and new temporaries of some of those. */
  ghost predicate Derived(q: Setting, original: Files<string>, removals: seq<string>, card: Files<string>) {
    && (forall r <- removals :: r in original && (r in card ==> card[r] == original[r]))
    && (forall n :: n !in removals && (n in original || !IsPart(q, removals, n)) ==> Get(card, n) == Get(original, n))
    && (forall r <- removals :: q.part(r) in card && q.part(r) !in original ==> r !in card)
  }

  /** No temporary but what was under such a name from the start. */
  ghost predicate NoParts(q: Setting, original: Files<string>, removals: seq<string>, card: Files<string>) {
    forall r <- removals :: q.part(r) in card ==> q.part(r) in original
  }

  /** For everything that is missing the name of its temporary is free. */
  ghost predicate Free(q: Setting, removals: seq<string>, card: Files<string>) {
    forall r <- removals :: r !in card ==> q.part(r) !in card
  }

  /** From the first journal entry on: the archive is the original card, and the card is derived from it. */
  ghost predicate Archived(q: Setting, card: Files<string>, host: Host) {
    && host.Destination? && host.archive.Some? && host.manifest.Some? && host.journal.Some?
    && var original, removals, j := host.archive.value, host.manifest.value.removals, host.journal.value;
    && host.manifest.value == Snap(q, original, removals) && PartsApart(q, removals)
    && j.snapshot == q.id(host.manifest.value) && (forall n <- j.completed :: n in removals)
    && Derived(q, original, removals, card)
    && (j.phase == RolledBack ==> card == original)
  }

  function Original(host: Host): Files<string> {
    if host.Destination? && host.archive.Some? then host.archive.value else map[]
  }

  function Removals(host: Host): seq<string> {
    if host.Destination? && host.manifest.Some? then host.manifest.value.removals else []
  }

  predicate Journals(host: Host, phase: Phase) {
    host.Destination? && host.journal.Some? && host.journal.value.phase == phase
  }

  predicate SameArchive(a: Host, b: Host) {
    a.Destination? && b.Destination? && a.archive == b.archive && a.manifest == b.manifest
  }

  /** As long as no step has failed: nothing half-restored, and nothing journaled that is not gone. */
  ghost predicate Forward(q: Setting, card: Files<string>, host: Host) {
    && Archived(q, card, host) && NoParts(q, host.archive.value, host.manifest.value.removals, card)
    && var removals, j := host.manifest.value.removals, host.journal.value;
    && j.phase != RolledBack && j.completed <= Missing(card, removals)
    && (j.phase == Completed ==> Missing(card, removals) == Members(removals))
  }

  ghost predicate Removed(card: Files<string>, host: Host) {
    && host.Destination? && host.archive.Some? && host.manifest.Some? && host.journal.Some?
    && host.journal.value.phase == Completed
    && card == host.archive.value - Members(host.manifest.value.removals)
  }

  ghost predicate Restored(card: Files<string>, host: Host) {
    && host.Destination? && host.archive.Some? && host.journal.Some?
    && host.journal.value.phase == RolledBack && card == host.archive.value
  }

  /** The decision of a resume on every state the runs can leave behind. */
  lemma ModeOf(q: Setting, card: Files<string>, host: Host)
    requires Archived(q, card, host)
    ensures var removals, j := host.manifest.value.removals, host.journal.value;
            var missing := Missing(card, removals);
            ResumeMode(q, card, host) ==
            match j.phase
            case RolledBack => None
            case Completed => if missing == Members(removals) then Some(AlreadyCompleted) else None
            case Pending =>
              if NoParts(q, host.archive.value, removals, card) && j.completed <= missing then Some(Finish)
              else Some(Rollback)
  {
    var original, removals, j := host.archive.value, host.manifest.value.removals, host.journal.value;
    assert Progress(q, card, host.manifest.value, j.completed) by {
      hide Identify;
    }
    StableExactly(q, original, removals, card);
    MissingAll(card, removals);
    hide Stable, Progress, Derived, PartsApart, NoParts, Identities;
  }

  lemma MissingAll(card: Files<string>, removals: seq<string>)
    ensures (forall r <- removals :: r in Missing(card, removals)) <==> Missing(card, removals) == Members(removals)
  {
  }

  lemma StableExactly(q: Setting, original: Files<string>, removals: seq<string>, card: Files<string>)
    requires Derived(q, original, removals, card) && PartsApart(q, removals)
    ensures Stable(q, card, Snap(q, original, removals)) <==> NoParts(q, original, removals, card)
  {
    hide Identify;
    if NoParts(q, original, removals, card) {
      forall n <- card ensures n in original && card[n] == original[n] {
        assert Get(card, n) == Some(card[n]);
      }
      forall n <- original ensures n in card || n in removals {
        assert Get(original, n) == Some(original[n]);
      }
    }
  }

  /** What a finished publication is the start of. */
  lemma PublishedForward(q: Setting, card: Files<string>, removals: seq<string>)
    requires Chosen(q, card, removals) && Apart(q, card)
    ensures var s := Snap(q, card, removals);
            Forward(q, card, Destination(Some(card), Some(s), Some(Journal(Pending, q.id(s), {}))))
  {
    assert PartsApart(q, removals);
    assert Derived(q, card, removals, card);
    hide Derived, PartsApart;
    assert NoParts(q, card, removals, card);
  }
  /** The archive holds exactly the files of the manifest, each with its size and digest. */
  ghost predicate ArchiveIntact(q: Setting, files: Files<string>, s: Snapshot) {
    && (forall n :: n in files <==> n in s.files)
    && forall n <- files :: |files[n]| == s.files[n].size && q.hash(files[n]) == s.files[n].digest
  }

  ghost predicate AsReviewed(q: Setting, card: Files<string>, s: Snapshot, n: string) {
    n in s.files && n in card && |card[n]| == s.files[n].size && q.hash(card[n]) == s.files[n].digest
  }

  /**
   * When a resume goes on, and how: the journal is that of the manifest and not rolled back, the archive is intact, what
   * was journaled are removals, and no removal on the card has changed. A completed journal wants all removals gone. A
   * pending one is finished if the rest of the card is as reviewed and nothing journaled is back, or else rolled back.
   */
  lemma ResumeExactly(q: Setting, card: Files<string>, host: Host)
    requires host.Destination? && host.archive.Some? && host.manifest.Some? && host.journal.Some?
    ensures var s, j := host.manifest.value, host.journal.value;
            var fits :=
              && j.snapshot == q.id(s) && j.phase != RolledBack && ArchiveIntact(q, host.archive.value, s)
              && (forall n <- j.completed :: n in s.removals)
              && (forall r <- s.removals :: r in s.files && (r in card ==> AsReviewed(q, card, s, r)));
            var clear :=
              && (forall n <- card :: AsReviewed(q, card, s, n))
              && (forall n <- s.files :: n in card || n in s.removals) && (forall n <- j.completed :: n !in card);
            ResumeMode(q, card, host) ==
            if !fits then None
            else match j.phase
              case Completed => if forall r <- s.removals :: r !in card then Some(AlreadyCompleted) else None
              case _ => Some(if clear then Finish else Rollback)
  {
    hide Identities, ArchiveIntact, AsReviewed, Stable, Progress;
    var s, j := host.manifest.value, host.journal.value;
    IntactExactly(q, host.archive.value, s);
    ReviewExactly(q, card, s, j.completed);
    assert j.completed <= Missing(card, s.removals) <==>
             (forall n <- j.completed :: n in s.removals) && (forall n <- j.completed :: n !in card);
    assert (forall r <- s.removals :: r in Missing(card, s.removals)) <==> forall r <- s.removals :: r !in card;
    hide Missing;
  }

  lemma ReviewExactly(q: Setting, card: Files<string>, s: Snapshot, completed: set<string>)
    ensures Stable(q, card, s) <==>
              (forall n <- card :: AsReviewed(q, card, s, n)) && (forall n <- s.files :: n in card || n in s.removals)
    ensures Progress(q, card, s, completed) <==>
              (forall n <- completed :: n in s.removals)
              && (forall r <- s.removals :: r in s.files && (r in card ==> AsReviewed(q, card, s, r)))
  {
  }

  lemma IntactExactly(q: Setting, files: Files<string>, s: Snapshot)
    ensures Identities(q, files) == s.files <==> ArchiveIntact(q, files, s)
  {
    var identities := Identities(q, files);
    assert forall n <- files :: identities[n] == Identity(|files[n]|, q.hash(files[n]));
    if ArchiveIntact(q, files, s) {
      assert identities.Keys == s.files.Keys;
    }
    if identities == s.files {
      assert forall n :: n in identities <==> n in files;
    }
  }
}
