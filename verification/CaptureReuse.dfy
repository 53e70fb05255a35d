/** The copy, verify and remove transaction for old capture data (installer/capture_reuse.py). */
module CaptureReuse {
  import opened Common
  import opened CaptureInventory

  datatype Receipt = Receipt(destination: string, media: string, inventory: map<Path, Entry>)

  /** The receipt file may be absent, cut short while it was being written, or whole. */
  datatype ReceiptFile = NoReceipt | Torn | Written(receipt: Receipt)

  /** The host archive: not there, an empty directory, or the copies with what is beside them. */
  datatype Archive = Missing | Bare | Copies(files: Tree, receipt: ReceiptFile, complete: Option<Bytes>)

  /** One card, one archive directory, and the digest line that ties a marker to a receipt. */
  datatype Setting = Setting(rules: Rules, pending: string, media: string, destination: string, token: Receipt -> Bytes)
  {
    ghost predicate Valid() {
      && pending !in rules.roots && !rules.updater(pending) && !Misspelt(rules, pending)
      && forall r :: |token(r)| == 65
    }

    function Pending(): Path { [pending] }

    function Sidecar(): Path { ["._" + pending] }
  }

  datatype Marker = Absent | Unreadable | Holds(bytes: Bytes)

  function MarkerIn(content: Option<Bytes>): Marker {
    if content.None? then Absent else if |content.value| > 65 then Unreadable else Holds(content.value)
  }

  function MarkerAt(t: Tree, p: Path): Marker {
    if p !in t then Absent else if t[p].Directory? then Unreadable else MarkerIn(Some(t[p].content))
  }

  function Complete(archive: Archive): Marker {
    if archive.Copies? then MarkerIn(archive.complete) else Absent
  }

  /** The receipt, if the archive still is exactly what the receipt says. */
  ghost function ReadReceipt(s: Setting, archive: Archive): Option<Receipt> {
    if archive.Copies? && archive.receipt.Written? then
      var r := archive.receipt.receipt;
      var actual := Inventory(s.rules, archive.files);
      if r.destination == s.destination && r.media == s.media && actual == Some(r.inventory) && r.inventory != map[]
      then Some(r) else None
    else None
  }

  /** The marker, if there is one, is the token or a torn beginning of it. */
  predicate Begins(marker: Marker, token: Bytes) {
    marker.Absent? || (marker.Holds? && marker.bytes <= token)
  }

  predicate Covered(inventory: map<Path, Entry>, r: Receipt) {
    forall p <- inventory :: p in r.inventory && r.inventory[p] == inventory[p]
  }

  predicate MayResume(token: Bytes, inventory: map<Path, Entry>, r: Receipt, pending: Marker, complete: Marker) {
    && !complete.Unreadable? && Begins(pending, token)
    && (complete.Holds? ==> inventory == map[] && complete.bytes <= token)
    && (complete.Absent? && pending != Holds(token) ==> inventory == r.inventory)
    && Covered(inventory, r)
  }

  datatype Plan = Plan(inventory: map<Path, Entry>, receipt: Option<Receipt>)

  /** The decision taken before anything is touched; None is a refusal. */
  ghost function Inspection(s: Setting, card: Tree, archive: Archive, resume: bool): Option<Plan> {
    var inventory := Inventory(s.rules, card);
    var pending := MarkerAt(card, s.Pending());
    var r := ReadReceipt(s, archive);
    if inventory.None? || s.Sidecar() in card then None
    else if resume then
      if r.Some? && MayResume(s.token(r.value), inventory.value, r.value, pending, Complete(archive))
      then Some(Plan(inventory.value, r)) else None
    else if archive.Missing? && pending.Absent? && inventory.value != map[] then Some(Plan(inventory.value, None))
    else None
  }

  /** A first call goes on exactly if there is capture data in order, no archive yet, and no marker or sidecar about. */
  ghost predicate FirstCallFits(s: Setting, card: Tree, archive: Archive) {
    && archive.Missing? && [s.pending] !in card && ["._" + s.pending] !in card
    && Inventory(s.rules, card).Some? && exists p <- card :: |p| > 0 && p[0] in s.rules.roots
  }

  lemma FirstCallExactly(s: Setting, card: Tree, archive: Archive)
    ensures Inspection(s, card, archive, false).Some? <==> FirstCallFits(s, card, archive)
    ensures Inspection(s, card, archive, false).Some? ==>
              Inspection(s, card, archive, false) == Some(Plan(Inventory(s.rules, card).value, None))
  {
    hide Clean, AllPermitted, Total;
    var found := Capture(s.rules, card);
    EmptyEntries(s.rules, found);
    if p :| p in card && |p| > 0 && p[0] in s.rules.roots {
      assert p in found;
    }
    if found != map[] {
      var p :| p in found;
    }
  }

  /**
   * A resume goes on exactly if the archive still is what its receipt says, for this destination and this card; the card
   * holds nothing the receipt does not have; what lies under the marker names begins the token; and either nothing is
   * missing, or the marker is whole, or the archive is complete and nothing is left.
   */
  ghost predicate ResumeFits(s: Setting, card: Tree, archive: Archive) {
    && archive.Copies? && archive.receipt.Written?
    && var r := archive.receipt.receipt;
    && r.destination == s.destination && r.media == s.media && r.inventory != map[]
    && Inventory(s.rules, archive.files) == Some(r.inventory)
    && Inventory(s.rules, card).Some? && ["._" + s.pending] !in card
    && (forall p <- card | |p| > 0 && p[0] in s.rules.roots ::
          p in r.inventory && r.inventory[p] == Identify(s.rules, card[p]))
    && ([s.pending] in card ==> card[[s.pending]].File? && card[[s.pending]].content <= s.token(r))
    && match archive.complete
       case Some(c) => c <= s.token(r) && forall p <- card :: !(|p| > 0 && p[0] in s.rules.roots)
       case None =>
         || ([s.pending] in card && card[[s.pending]] == File(s.token(r)))
         || (forall p <- r.inventory :: p in card)
  }

  lemma ResumeExactly(s: Setting, card: Tree, archive: Archive)
    requires s.Valid()
    ensures Inspection(s, card, archive, true).Some? <==> ResumeFits(s, card, archive)
  {
    hide Inventory, Entries, Covered, Capture, MarkerAt, Begins, Complete, Identify, MayResume;
    if archive.Copies? && archive.receipt.Written? && Inventory(s.rules, card).Some? {
      var r := archive.receipt.receipt;
      var inventory := Inventory(s.rules, card).value;
      InventoryReads(s.rules, card);
      CoveredExactly(s.rules, card, r);
      MayResumeExactly(s, card, archive, inventory, r);
      if Inventory(s.rules, archive.files) == Some(r.inventory) && Covered(inventory, r) {
        MissingNothing(s, card, archive.files, r);
      }
    }
  }

  lemma InventoryReads(rules: Rules, card: Tree)
    ensures Inventory(rules, card).Some? ==> Inventory(rules, card).value == Entries(rules, Capture(rules, card))
    ensures Entries(rules, Capture(rules, card)) == map[] <==> forall p <- card :: !(|p| > 0 && p[0] in rules.roots)
  {
    hide Identify, Clean, AllPermitted, Total;
    EmptyEntries(rules, Capture(rules, card));
    assert forall p :: p in Capture(rules, card) <==> p in card && |p| > 0 && p[0] in rules.roots;
  }

  lemma MayResumeExactly(s: Setting, card: Tree, archive: Archive, inventory: map<Path, Entry>, r: Receipt)
    requires s.Valid() && archive.Copies?
    ensures var token := s.token(r);
            MayResume(token, inventory, r, MarkerAt(card, s.Pending()), Complete(archive)) <==>
              && ([s.pending] in card ==> card[[s.pending]].File? && card[[s.pending]].content <= token)
              && Covered(inventory, r)
              && match archive.complete
                 case Some(c) => c <= token && inventory == map[]
                 case None => ([s.pending] in card && card[[s.pending]] == File(token)) || inventory == r.inventory
  {
    MarkerExactly(s, card, s.token(r));
    hide Covered, MarkerAt, Begins;
  }

  lemma CoveredExactly(rules: Rules, card: Tree, r: Receipt)
    ensures Covered(Entries(rules, Capture(rules, card)), r) <==>
              forall p <- card | |p| > 0 && p[0] in rules.roots ::
                p in r.inventory && r.inventory[p] == Identify(rules, card[p])
  {
    hide Identify;
    var inventory := Entries(rules, Capture(rules, card));
    assert forall p <- card | |p| > 0 && p[0] in rules.roots :: p in inventory && inventory[p] == Identify(rules, card[p]);
  }

  lemma MarkerExactly(s: Setting, card: Tree, token: Bytes)
    requires |token| == 65
    ensures Begins(MarkerAt(card, s.Pending()), token) <==>
              ([s.pending] in card ==> card[[s.pending]].File? && card[[s.pending]].content <= token)
    ensures MarkerAt(card, s.Pending()) == Holds(token) <==> [s.pending] in card && card[[s.pending]] == File(token)
  {
  }

  lemma MissingNothing(s: Setting, card: Tree, files: Tree, r: Receipt)
    requires Inventory(s.rules, files) == Some(r.inventory) && Covered(Entries(s.rules, Capture(s.rules, card)), r)
    ensures Entries(s.rules, Capture(s.rules, card)) == r.inventory <==> forall p <- r.inventory :: p in card
  {
    hide Identify, Clean, AllPermitted, Total;
    var inventory := Entries(s.rules, Capture(s.rules, card));
    if forall p <- r.inventory :: p in card {
      forall p <- r.inventory ensures p in inventory {
        assert p in Capture(s.rules, files) && Captured(s.rules, p);
      }
      assert inventory == r.inventory;
    }
  }

  /** Everything on the card that is neither capture data nor the marker. */
  ghost function Rest(s: Setting, card: Tree): Tree {
    map p <- card | !Captured(s.rules, p) && p != s.Pending() :: card[p]
  }

  function ReceiptFor(s: Setting, original: Tree): Receipt {
    Receipt(s.destination, s.media, Entries(s.rules, original))
  }

  /** Both markers, as far as they have got, against what is left on the card. */
  ghost predicate MarkersFit(token: Bytes, pending: Marker, complete: Marker, untouched: bool, empty: bool) {
    match complete
    case Unreadable => false
    case Absent => pending == Holds(token) || (untouched && Begins(pending, token))
    case Holds(c) => empty && c <= token && (pending == Holds(token) || (pending.Absent? && c == token))
  }

  /** From the moment the receipt is whole: the archive is the original capture, and the card has a part of it left. */
  ghost predicate Published(s: Setting, card: Tree, archive: Archive) {
    && archive.Copies? && IsTree(archive.files) && archive.files != map[]
    && Capture(s.rules, archive.files) == archive.files && Inventory(s.rules, archive.files).Some?
    && archive.receipt == Written(ReceiptFor(s, archive.files))
    && IsTree(card) && Clean(s.rules, card) && s.Sidecar() !in card
    && Within(Capture(s.rules, card), archive.files)
    && MarkersFit(s.token(archive.receipt.receipt), MarkerAt(card, s.Pending()), Complete(archive),
                  Capture(s.rules, card) == archive.files, Capture(s.rules, card) == map[])
  }

  /** Every state that a receipt has been published in is one that a resume accepts. */
  lemma PublishedResumes(s: Setting, card: Tree, archive: Archive)
    requires s.Valid() && Published(s, card, archive)
    ensures Inspection(s, card, archive, true)
         == Some(Plan(Entries(s.rules, Capture(s.rules, card)), Some(ReceiptFor(s, archive.files))))
  {
    hide Published, MayResume, ReadReceipt, Inventory, Entries, Complete, MarkerAt, Capture;
    ArchiveReads(s, card, archive);
    ResumeDecision(s, card, archive);
  }

  lemma ResumeDecision(s: Setting, card: Tree, archive: Archive)
    requires s.Valid() && Published(s, card, archive)
    ensures var left, r := Entries(s.rules, Capture(s.rules, card)), ReceiptFor(s, archive.files);
            && Inventory(s.rules, card) == Some(left) && s.Sidecar() !in card
            && MayResume(s.token(r), left, r, MarkerAt(card, s.Pending()), Complete(archive))
  {
    var left, all, token := Capture(s.rules, card), archive.files, s.token(ReceiptFor(s, archive.files));
    PartInventoried(s.rules, card, all);
    assert Covered(Entries(s.rules, left), ReceiptFor(s, all));
    assert left == map[] ==> Entries(s.rules, left) == map[];
    assert MarkersFit(token, MarkerAt(card, s.Pending()), Complete(archive), left == all, left == map[]);
    hide Clean, Total, Permitted, Identify, IsTree, Inventory, Entries, Within, Covered, Published, MarkerAt, Complete;
  }

  lemma ArchiveReads(s: Setting, card: Tree, archive: Archive)
    requires s.Valid() && Published(s, card, archive)
    ensures ReadReceipt(s, archive) == Some(ReceiptFor(s, archive.files))
  {
    var all := archive.files;
    var p :| p in all;
    assert p in Entries(s.rules, all);
    hide Clean, AllPermitted, Total, Identify, IsTree, MarkersFit, Within;
  }

  /** The card with the marker file replaced, or removed. */
  ghost function WithMarker(s: Setting, card: Tree, content: Option<Bytes>): Tree {
    if content.None? then card - {s.Pending()} else card[s.Pending() := File(content.value)]
  }

  lemma MarkerChanges(s: Setting, card: Tree, content: Option<Bytes>)
    requires s.Valid() && IsTree(card) && !MarkerAt(card, s.Pending()).Unreadable?
    ensures var next := WithMarker(s, card, content);
            && IsTree(next) && Capture(s.rules, next) == Capture(s.rules, card) && Rest(s, next) == Rest(s, card)
            && (s.Sidecar() in next <==> s.Sidecar() in card) && (Clean(s.rules, card) ==> Clean(s.rules, next))
            && MarkerAt(next, s.Pending()) == MarkerIn(content)
  {
    hide Misspelt;
    assert s.Sidecar() != s.Pending() by {
      assert |"._" + s.pending| != |s.pending|;
    }
  }

  /** Some of the capture gone, under the marker. */
  lemma Removed(s: Setting, card: Tree, gone: set<Path>)
    requires s.Valid() && gone <= Capture(s.rules, card).Keys && IsTree(card - gone)
    ensures var next := card - gone;
            && Capture(s.rules, next) == Capture(s.rules, card) - gone && Rest(s, next) == Rest(s, card)
            && (s.Sidecar() in next ==> s.Sidecar() in card) && (Clean(s.rules, card) ==> Clean(s.rules, next))
            && MarkerAt(next, s.Pending()) == MarkerAt(card, s.Pending())
            && Within(Capture(s.rules, next), Capture(s.rules, card))
  {
    hide Misspelt;
  }

  /** A card that differs from `before` in its capture files and its marker only. */
  ghost predicate Resembles(s: Setting, before: Tree, card: Tree) {
    && IsTree(card) && Rest(s, card) == Rest(s, before)
    && (s.Sidecar() in card ==> s.Sidecar() in before) && (Clean(s.rules, before) ==> Clean(s.rules, card))
  }

  /** Capture files are gone only under the whole marker, or after completion, and only if the receipt has them. */
  ghost predicate Authorised(s: Setting, before: Tree, card: Tree, archive: Archive) {
    Capture(s.rules, card) != Capture(s.rules, before) ==>
      var r := ReadReceipt(s, archive);
      && r.Some? && Covered(Entries(s.rules, Capture(s.rules, before)), r.value)
      && (MarkerAt(card, s.Pending()) == Holds(s.token(r.value))
          || (Capture(s.rules, card) == map[] && archive.complete == Some(s.token(r.value))))
  }

  ghost predicate Safe(s: Setting, before: Tree, card: Tree, archive: Archive) {
    && Rest(s, card) == Rest(s, before) && Within(Capture(s.rules, card), Capture(s.rules, before))
    && Authorised(s, before, card, archive)
  }

  /** Nothing is lost: what is no longer on the card is in the archive, the same in size and digest. */
  lemma NothingLost(s: Setting, before: Tree, card: Tree, archive: Archive, p: Path)
    requires Safe(s, before, card, archive) && p in Capture(s.rules, before)
    ensures (p in card && card[p] == before[p])
            || (archive.Copies? && p in archive.files
                && Identify(s.rules, archive.files[p]) == Identify(s.rules, before[p]))
  {
    hide Clean, AllPermitted, Total, Identify, MarkerAt, Rest;
    if Capture(s.rules, card) != Capture(s.rules, before) {
      var r := ReadReceipt(s, archive).value;
      assert p in Entries(s.rules, Capture(s.rules, before));
      assert p in r.inventory;
    }
  }

  /** What a file system guarantees of a card and of an archive that has its receipt. */
  ghost predicate Sound(s: Setting, card: Tree, archive: Archive) {
    s.Valid() && IsTree(card) && (archive.Copies? && archive.receipt.Written? ==> IsTree(archive.files))
  }

  /* One call after its receipt, phase by phase. */

  ghost predicate Begun(s: Setting, r: Receipt, card: Tree, archive: Archive) {
    && s.Valid() && IsTree(card) && archive.Copies? && IsTree(archive.files) && s.Sidecar() !in card
    && ReadReceipt(s, archive) == Some(r) && Inventory(s.rules, card).Some?
    && MayResume(s.token(r), Entries(s.rules, Capture(s.rules, card)), r, MarkerAt(card, s.Pending()), Complete(archive))
  }

  /** What holds wherever a call stops. */
  ghost predicate Landed(s: Setting, card0: Tree, archive0: Archive, card: Tree, archive: Archive) {
    && IsTree(card) && Safe(s, card0, card, archive)
    && (Published(s, card0, archive0) ==> Published(s, card, archive))
  }

  /** Where a call may stop or end, after the receipt: what was safe and resumable is so still. */
  lemma Lands(s: Setting, r: Receipt, card0: Tree, archive0: Archive, card: Tree, archive: Archive)
    requires Begun(s, r, card0, archive0)
    requires Resembles(s, card0, card) && Within(Capture(s.rules, card), Capture(s.rules, card0))
    requires archive.Copies? && archive == archive0.(complete := archive.complete)
    requires Capture(s.rules, card) != Capture(s.rules, card0) ==>
               MarkerAt(card, s.Pending()) == Holds(s.token(r))
               || (Capture(s.rules, card) == map[] && archive.complete == Some(s.token(r)))
    requires Published(s, card0, archive0) ==>
               MarkersFit(s.token(r), MarkerAt(card, s.Pending()), Complete(archive),
                          Capture(s.rules, card) == archive0.files, Capture(s.rules, card) == map[])
    ensures Landed(s, card0, archive0, card, archive)
  {
    assert ReadReceipt(s, archive) == Some(r) by {
      hide Clean, AllPermitted, Total, Identify, MarkerAt, Rest, Covered, Within, Published, MarkersFit;
    }
    hide Clean, Inventory, Identify, MarkerAt, Rest, Covered, MarkersFit, Entries, Capture, IsTree, ReadReceipt;
    if Published(s, card0, archive0) {
      ArchiveReads(s, card0, archive0);
    }
  }

  lemma PublishedFits(s: Setting, r: Receipt, card: Tree, archive: Archive)
    requires Begun(s, r, card, archive)
    ensures Published(s, card, archive) ==>
              MarkersFit(s.token(r), MarkerAt(card, s.Pending()), Complete(archive),
                         Capture(s.rules, card) == archive.files, Capture(s.rules, card) == map[])
  {
    if Published(s, card, archive) {
      ArchiveReads(s, card, archive);
    }
  }

  /** While capture data is being removed: under the marker, unless all was complete before. */
  ghost predicate Cleaning(s: Setting, r: Receipt, card0: Tree, archive0: Archive, card: Tree) {
    && Resembles(s, card0, card) && Within(Capture(s.rules, card), Capture(s.rules, card0))
    && if Complete(archive0) == Holds(s.token(r)) then card == card0 else MarkerAt(card, s.Pending()) == Holds(s.token(r))
  }

  lemma EmptyEntries(rules: Rules, t: Tree)
    ensures Entries(rules, t) == map[] <==> t == map[]
  {
    assert Entries(rules, t).Keys == t.Keys;
    assert t.Keys == {} <==> t == map[];
    assert Entries(rules, t).Keys == {} <==> Entries(rules, t) == map[];
  }

  lemma MarkingLands(s: Setting, r: Receipt, card0: Tree, archive0: Archive, card: Tree)
    requires Begun(s, r, card0, archive0) && Complete(archive0) != Holds(s.token(r))
    requires Resembles(s, card0, card) && Capture(s.rules, card) == Capture(s.rules, card0)
    requires Begins(MarkerAt(card, s.Pending()), s.token(r))
    requires MarkerAt(card0, s.Pending()) == Holds(s.token(r)) ==> card == card0
    ensures Landed(s, card0, archive0, card, archive0)
  {
    EmptyEntries(s.rules, Capture(s.rules, card0));
    PublishedFits(s, r, card0, archive0);
    hide Published, Safe, Inventory, ReadReceipt, MarkerAt, Capture, Entries, IsTree, Clean, Rest, Covered;
    Lands(s, r, card0, archive0, card, archive0);
  }

  lemma CleaningLands(s: Setting, r: Receipt, card0: Tree, archive0: Archive, card: Tree)
    requires Begun(s, r, card0, archive0) && Cleaning(s, r, card0, archive0, card)
    ensures Landed(s, card0, archive0, card, archive0)
  {
    EmptyEntries(s.rules, Capture(s.rules, card0));
    PublishedFits(s, r, card0, archive0);
    hide Published, Safe, Inventory, ReadReceipt, MarkerAt, Capture, Entries, IsTree, Clean, Rest, Covered, Resembles;
    Lands(s, r, card0, archive0, card, archive0);
  }

  /** Removing more of the capture, files or directories, goes on being cleaning. */
  lemma CleaningStep(s: Setting, r: Receipt, card0: Tree, archive0: Archive, card: Tree, gone: set<Path>)
    requires Begun(s, r, card0, archive0) && Cleaning(s, r, card0, archive0, card)
    requires gone <= Capture(s.rules, card).Keys && IsTree(card - gone)
    ensures Cleaning(s, r, card0, archive0, card - gone)
    ensures Capture(s.rules, card - gone) == Capture(s.rules, card) - gone
  {
    Removed(s, card, gone);
    EmptyEntries(s.rules, Capture(s.rules, card0));
    assert gone == {} ==> card - gone == card;
    hide Published, Inventory, ReadReceipt, MarkerAt, Capture, Entries, IsTree, Clean, Rest, Covered;
  }

  /** The completion marker is written when nothing is left, and never over a whole one. */
  lemma CompletingLands(s: Setting, r: Receipt, card0: Tree, archive0: Archive, card: Tree, archive: Archive)
    requires Begun(s, r, card0, archive0) && Cleaning(s, r, card0, archive0, card) && Capture(s.rules, card) == map[]
    requires archive.Copies? && archive == archive0.(complete := archive.complete)
    requires archive.complete == archive0.complete
             || (Complete(archive0) != Holds(s.token(r)) && archive.complete.Some? && archive.complete.value <= s.token(r))
    ensures Landed(s, card0, archive0, card, archive)
  {
    if archive.complete == archive0.complete {
      assert archive == archive0;
      CleaningLands(s, r, card0, archive0, card);
    } else {
      hide Published, Safe, Inventory, ReadReceipt, MarkerAt, Capture, Entries, IsTree, Clean, Rest, Covered, Resembles;
      Lands(s, r, card0, archive0, card, archive);
    }
  }

  /** The marker goes last. */
  lemma UnmarkedLands(s: Setting, r: Receipt, card0: Tree, archive0: Archive, card: Tree, archive: Archive)
    requires Begun(s, r, card0, archive0) && Cleaning(s, r, card0, archive0, card) && Capture(s.rules, card) == map[]
    requires archive.Copies? && archive == archive0.(complete := Some(s.token(r)))
    requires MarkerAt(card, s.Pending()) == Holds(s.token(r))
    ensures var bare := card - {s.Pending()};
            Landed(s, card0, archive0, bare, archive) && Capture(s.rules, bare) == map[] && IsTree(bare)
  {
    MarkerChanges(s, card, None);
    hide Published, Safe, Inventory, ReadReceipt, MarkerAt, Capture, Entries, IsTree, Clean, Rest, Covered;
    Lands(s, r, card0, archive0, card - {s.Pending()}, archive);
  }

  lemma MarkerWhileCleaning(s: Setting, r: Receipt, card0: Tree, archive0: Archive, card: Tree)
    requires Begun(s, r, card0, archive0) && Cleaning(s, r, card0, archive0, card)
    ensures !MarkerAt(card, s.Pending()).Unreadable?
    ensures Published(s, card0, archive0) ==> MarkerAt(card, s.Pending()) in {Absent, Holds(s.token(r))}
  {
    PublishedFits(s, r, card0, archive0);
    hide Published, Inventory, ReadReceipt, Capture, Entries, IsTree, Clean, Rest, Covered, Resembles, MarkerAt;
  }

  /** Once nothing is left the inventory comes out empty. */
  lemma NothingLeft(s: Setting, r: Receipt, card0: Tree, archive0: Archive, card: Tree)
    requires Begun(s, r, card0, archive0) && Cleaning(s, r, card0, archive0, card) && Capture(s.rules, card) == map[]
    ensures Inventory(s.rules, card) == Some(map[])
  {
    EmptyEntries(s.rules, Capture(s.rules, card));
    hide Published, ReadReceipt, Entries, IsTree, Rest, Covered, MarkerAt;
  }

  /** The check that a card is free for another capture. */
  predicate Ready(s: Setting, card: Tree) {
    && s.Pending() !in card && s.Sidecar() !in card
    && forall p <- card | |p| == 1 ::
         !s.rules.updater(p[0]) && forall r <- s.rules.roots :: s.rules.fold(p[0]) != s.rules.fold(r)
  }

  /** Neither marker nor sidecar, no file of an updater, and nothing at any depth below a name like that of a capture. */
  lemma ReadyExactly(s: Setting, card: Tree)
    requires IsTree(card)
    ensures Ready(s, card) <==>
              && [s.pending] !in card && ["._" + s.pending] !in card
              && (forall p <- card | |p| == 1 :: !s.rules.updater(p[0]))
              && (forall p <- card, r <- s.rules.roots :: s.rules.fold(p[0]) != s.rules.fold(r))
  {
    if Ready(s, card) {
      forall p <- card, r <- s.rules.roots ensures s.rules.fold(p[0]) != s.rules.fold(r) {
        TopEntry(card, p);
      }
    }
  }

  lemma {:induction false} TopEntry(card: Tree, p: Path)
    requires IsTree(card) && p in card
    ensures |p| > 0 && [p[0]] in card
    decreases |p|
  {
    if |p| > 1 {
      TopEntry(card, Parent(p));
    } else {
      assert p == [p[0]];
    }
  }

  lemma CleanedIsReady(s: Setting, card: Tree)
    requires Clean(s.rules, card) && Capture(s.rules, card) == map[] && s.Pending() !in card && s.Sidecar() !in card
    ensures Ready(s, card)
  {
    forall p <- card | |p| == 1 ensures p[0] !in s.rules.roots {
      assert p !in Capture(s.rules, card);
    }
  }
}
