/** The transaction itself, step by step, with a stop possible before every step and within every write. */
module CaptureReuseRuns {
  import opened Common
  import opened CaptureInventory
  import opened CaptureReuse

  datatype ReuseOutcome = Done | Refused | Stopped

  /** Steps before the stop (None: no stop) and how far a write it falls into has got (None: not even begun). */
  datatype Stop = Stop(after: Option<nat>, tear: Option<nat>)

  function Cut(content: Bytes, n: nat): Bytes { if n < |content| then content[..n] else content }

  ghost function FilesIn(t: Tree): set<Path> { set p <- t | t[p].File? }

  lemma {:induction false} HasTop(names: set<Path>, p: Path) returns (top: Path)
    requires p in names && [] !in names
    ensures top in names && Parent(top) !in names
    decreases |p|
  {
    if Parent(p) in names {
      top := HasTop(names, Parent(p));
    } else {
      top := p;
    }
  }

  lemma {:induction false} HasDeepest(names: set<Path>) returns (deepest: Path)
    requires names != {}
    ensures deepest in names && forall p <- names :: |p| <= |deepest|
  {
    deepest :| deepest in names;
    if names != {deepest} {
      var other := HasDeepest(names - {deepest});
      if |other| > |deepest| {
        deepest := other;
      }
    }
  }

  lemma CopyBegins(found: Tree)
    ensures found - found.Keys == map[] && found - {} == found
  {
  }

  lemma CopyStep(found: Tree, remaining: set<Path>, name: Path)
    requires remaining <= found.Keys && name in remaining
    ensures (found - remaining)[name := found[name]] == found - (remaining - {name})
  {
  }

  ghost function Without(t: Tree, gone: set<Path>): Tree { t - gone }

  ghost function Yet(names: set<Path>, gone: set<Path>): set<Path> { names - gone }

  lemma NoneYet(t: Tree, names: set<Path>)
    ensures Without(t, {}) == t && Yet(names, {}) == names && {} <= names
  {
  }

  lemma OneMore(t: Tree, names: set<Path>, gone: set<Path>, name: Path)
    requires gone <= names && name in Yet(names, gone)
    ensures Without(t, gone) - {name} == Without(t, gone + {name}) && Yet(names, gone) - {name} == Yet(names, gone + {name})
    ensures gone + {name} <= names
  {
  }

  lemma NoneLeft(names: set<Path>, gone: set<Path>)
    requires gone <= names && Yet(names, gone) == {}
    ensures gone == names
  {
    assert forall x <- names :: x in gone || x in Yet(names, gone);
  }

  lemma InCapture(rules: Rules, t: Tree)
    ensures forall p <- Capture(rules, t) :: p in t && Capture(rules, t)[p] == t[p] && Captured(rules, p)
  {
  }

  /** There is always an entry to copy whose directory is already there. */
  lemma TopExists(rules: Rules, t: Tree, remaining: set<Path>)
    requires remaining <= Capture(rules, t).Keys && remaining != {}
    ensures exists name :: name in remaining && Parent(name) !in remaining
  {
    var some :| some in remaining;
    var top := HasTop(remaining, some);
  }

  class Transaction {
    const s: Setting
    var card: Tree
    var archive: Archive
    var left: Option<nat>

    constructor (s: Setting, card: Tree, archive: Archive)
      ensures this.s == s && this.card == card && this.archive == archive
    {
      this.s, this.card, this.archive, left := s, card, archive, None;
    }

    method Step() returns (go: bool)
      modifies this`left
      ensures go <==> old(left) != Some(0)
      ensures left.None? <==> old(left).None?
    {
      go := left != Some(0);
      if left.Some? && left.value > 0 {
        left := Some(left.value - 1);
      }
    }

    /** A marker rewritten from whatever beginning of the token it holds; the file as the write leaves it. */
    method WriteMarker(current: Option<Bytes>, token: Bytes, stop: Stop) returns (outcome: ReuseOutcome,
                       content: Option<Bytes>)
      requires !MarkerIn(current).Unreadable?
      modifies this`left
      ensures left.None? <==> old(left).None?
      ensures outcome == Refused <==> !Begins(MarkerIn(current), token)
      ensures outcome == Refused ==> content == current
      ensures outcome == Done ==> content == Some(token)
      ensures outcome == Stopped ==> old(left).Some? && (content == current || (content.Some? && content.value <= token))
      ensures current == Some(token) ==> content == current
    {
      if current == Some(token) {
        return Done, current;
      }
      if current.Some? && !(current.value <= token) {
        return Refused, current;
      }
      var go := Step();
      if !go {
        return Stopped, if stop.tear.None? then current else Some(Cut(token, stop.tear.value));
      }
      return Done, Some(token);
    }

    method Inspect(resume: bool) returns (plan: Option<Plan>)
      requires Sound(s, card, archive)
      ensures plan == Inspection(s, card, archive, resume)
    {
      var inventory := CaptureWalk(s.rules, card);
      var receipt := ReadBack();
      if resume && receipt.None? {
        return None;
      }
      var pending := MarkerAt(card, s.Pending());
      if inventory.None? || s.Sidecar() in card || pending.Unreadable? || (!resume && archive != Missing) {
        return None;
      }
      if !resume {
        return if pending.Holds? || inventory.value == map[] then None else Some(Plan(inventory.value, None));
      }
      var completed := Complete(archive);
      var token := s.token(receipt.value);
      if completed.Unreadable? {
        return None;
      }
      if completed.Holds? {
        if inventory.value != map[] || !(completed.bytes <= token) {
          return None;
        }
      } else if pending != Holds(token) {
        if inventory.value != receipt.value.inventory || (pending.Holds? && !(pending.bytes <= token)) {
          return None;
        }
      }
      if pending.Holds? && !(pending.bytes <= token) {
        return None;
      }
      if !Covered(inventory.value, receipt.value) {
        return None;
      }
      return Some(Plan(inventory.value, receipt));
    }

    method ReadBack() returns (receipt: Option<Receipt>)
      requires archive.Copies? && archive.receipt.Written? ==> IsTree(archive.files)
      ensures receipt == ReadReceipt(s, archive)
    {
      if !archive.Copies? || !archive.receipt.Written? {
        return None;
      }
      var r := archive.receipt.receipt;
      if r.destination != s.destination || r.media != s.media {
        return None;
      }
      var actual := CaptureWalk(s.rules, archive.files);
      return if actual.None? || actual.value == map[] || actual.value != r.inventory then None else Some(r);
    }

    /** Copies every entry, in any order that puts a directory before what is in it. */
    method CopyAll(inventory: map<Path, Entry>, stop: Stop) returns (outcome: ReuseOutcome)
      requires Sound(s, card, archive) && archive == Copies(map[], NoReceipt, None)
      requires inventory.Keys == Capture(s.rules, card).Keys
      modifies this`archive, this`left
      ensures left.None? <==> old(left).None?
      ensures archive.Copies? && archive.receipt == NoReceipt && archive.complete == None
      ensures outcome == Done ==> archive.files == Capture(s.rules, card)
      ensures outcome != Refused && (outcome == Stopped ==> old(left).Some?)
    {
      hide *;
      var remaining := inventory.Keys;
      ghost var found := Capture(s.rules, card);
      var files: Tree := map[];
      CopyBegins(found);
      InCapture(s.rules, card);
      outcome := Done;
      while remaining != {}
        invariant remaining <= found.Keys && files == found - remaining
        invariant archive == Copies(files, NoReceipt, None)
        invariant left.None? <==> old(left).None?
        decreases |remaining|
      {
        TopExists(s.rules, card, remaining);
        var name :| name in remaining && Parent(name) !in remaining;
        CopyStep(found, remaining, name);
        var go := Step();
        if !go {
          if card[name].File? && stop.tear.Some? {
            archive := archive.(files := files[name := File(Cut(card[name].content, stop.tear.value))]);
          }
          return Stopped;
        }
        files := files[name := card[name]];
        archive := archive.(files := files);
        remaining := remaining - {name};
      }
    }

    /** The archive is created, filled, compared, and only then given its receipt. */
    method Publish(inventory: map<Path, Entry>, stop: Stop) returns (outcome: ReuseOutcome)
      requires Sound(s, card, archive) && archive == Missing && s.Sidecar() !in card && s.Pending() !in card
      requires Inventory(s.rules, card) == Some(inventory) && inventory != map[]
      modifies this`archive, this`left
      ensures left.None? <==> old(left).None?
      ensures outcome == Done ==>
                Published(s, card, archive) && archive.files == Capture(s.rules, card) && archive.complete == None
      ensures outcome != Done ==> archive.Copies? ==> !archive.receipt.Written?
      ensures outcome == Stopped ==> old(left).Some?
      ensures outcome != Refused
    {
      var go := Step();
      if !go {
        return Stopped;
      }
      archive := Bare;
      go := Step();
      if !go {
        return Stopped;
      }
      archive := Copies(map[], NoReceipt, None);
      outcome := CopyAll(inventory, stop);
      if outcome != Done {
        return;
      }
      ghost var found := Capture(s.rules, card);
      FreshlyPublished(s, card);
      var again := CaptureWalk(s.rules, archive.files);
      if again != Some(inventory) {
        return Refused;
      }
      go := Step();
      if !go {
        if stop.tear.Some? {
          archive := archive.(receipt := Torn);
        }
        return Stopped;
      }
      archive := archive.(receipt := Written(Receipt(s.destination, s.media, inventory)));
    }

    method RemoveFile(name: Path, expected: Entry, token: Bytes) returns (outcome: ReuseOutcome)
      requires name in card
      modifies this`card, this`left
      ensures left.None? <==> old(left).None?
      ensures card == if outcome == Done then old(card) - {name} else old(card)
      ensures outcome == Refused <==>
              !(MarkerAt(old(card), s.Pending()) == Holds(token) && archive.Copies? && name in archive.files
                && Identify(s.rules, archive.files[name]) == expected == Identify(s.rules, old(card)[name]))
      ensures outcome == Stopped ==> old(left).Some?
    {
      hide *;
      if MarkerAt(card, s.Pending()) != Holds(token) || !archive.Copies? || name !in archive.files {
        return Refused;
      }
      if Identify(s.rules, archive.files[name]) != expected || Identify(s.rules, card[name]) != expected {
        return Refused;
      }
      var go := Step();
      if !go {
        return Stopped;
      }
      card := card - {name};
      outcome := Done;
    }

    /** A directory with something in it does not go. */
    method RemoveDirectory(name: Path, token: Bytes) returns (outcome: ReuseOutcome)
      modifies this`card, this`left
      ensures left.None? <==> old(left).None?
      ensures card == if outcome == Done then old(card) - {name} else old(card)
      ensures outcome == Refused <==>
              MarkerAt(old(card), s.Pending()) != Holds(token) || exists p <- old(card) :: IsChild(name, p)
      ensures outcome == Stopped ==> old(left).Some?
    {
      hide *;
      if MarkerAt(card, s.Pending()) != Holds(token) || exists p <- card :: IsChild(name, p) {
        return Refused;
      }
      var go := Step();
      if !go {
        return Stopped;
      }
      card := card - {name};
      outcome := Done;
    }

    /** Removes the card's copies one by one, each time against the marker and the archived copy. */
    method RemoveFiles(inventory: map<Path, Entry>, token: Bytes) returns (outcome: ReuseOutcome, ghost gone: set<Path>)
      requires s.Valid() && archive.Copies? && Vouched(s, card, archive.files, inventory, token)
      modifies this`card, this`left
      ensures left.None? <==> old(left).None?
      ensures card == Without(old(card), gone) && gone <= FilesIn(Capture(s.rules, old(card)))
      ensures outcome == Done ==> gone == FilesIn(Capture(s.rules, old(card)))
      ensures outcome != Refused && (outcome == Stopped ==> old(left).Some?)
    {
      hide *;
      ghost var start, files := card, FilesIn(Capture(s.rules, card));
      gone := {};
      var remaining := set p <- inventory | inventory[p].FileEntry?;
      FileNames(s, card, archive.files, inventory, token);
      NoneYet(start, files);
      while remaining != {}
        invariant gone <= files && remaining == Yet(files, gone) && card == Without(start, gone)
        invariant left.None? <==> old(left).None?
        decreases |remaining|
      {
        var name :| name in remaining;
        StillVouched(s, start, archive.files, inventory, token, gone, name);
        outcome := RemoveFile(name, inventory[name], token);
        if outcome != Done {
          return;
        }
        OneMore(start, files, gone, name);
        gone, remaining := gone + {name}, remaining - {name};
      }
      NoneLeft(files, gone);
      outcome := Done;
    }

    /** Then the directories, the deepest first. */
    method RemoveDirectories(inventory: map<Path, Entry>, token: Bytes) returns (outcome: ReuseOutcome,
                             ghost gone: set<Path>)
      requires s.Valid() && IsTree(card)
      requires (set p <- inventory | inventory[p].DirectoryEntry?) == Capture(s.rules, card).Keys
      requires Capture(s.rules, card) != map[] ==> MarkerAt(card, s.Pending()) == Holds(token)
      modifies this`card, this`left
      ensures left.None? <==> old(left).None?
      ensures card == Without(old(card), gone) && gone <= Capture(s.rules, old(card)).Keys && IsTree(card)
      ensures outcome == Done ==> gone == Capture(s.rules, old(card)).Keys
      ensures outcome != Refused && (outcome == Stopped ==> old(left).Some?)
    {
      hide *;
      ghost var start, found := card, Capture(s.rules, card);
      gone := {};
      var remaining := set p <- inventory | inventory[p].DirectoryEntry?;
      NoneYet(start, found.Keys);
      while remaining != {}
        invariant gone <= found.Keys && remaining == Yet(found.Keys, gone) && card == Without(start, gone) && IsTree(card)
        invariant left.None? <==> old(left).None?
        decreases |remaining|
      {
        ghost var deepest := HasDeepest(remaining);
        var name :| name in remaining && forall p <- remaining :: |p| <= |name|;
        DirectoryEmptied(s, start, gone, name);
        outcome := RemoveDirectory(name, token);
        if outcome != Done {
          return;
        }
        OneMore(start, found.Keys, gone, name);
        gone, remaining := gone + {name}, remaining - {name};
      }
      NoneLeft(found.Keys, gone);
      outcome := Done;
    }

    function Current(marker: Marker): Option<Bytes> { if marker.Holds? then Some(marker.bytes) else None }

    method MarkPending(token: Bytes, stop: Stop) returns (outcome: ReuseOutcome)
      requires s.Valid() && IsTree(card) && |token| == 65 && Begins(MarkerAt(card, s.Pending()), token)
      modifies this`card, this`left
      ensures left.None? <==> old(left).None?
      ensures Resembles(s, old(card), card) && Capture(s.rules, card) == Capture(s.rules, old(card))
      ensures Begins(MarkerAt(card, s.Pending()), token)
      ensures MarkerAt(old(card), s.Pending()) == Holds(token) ==> card == old(card)
      ensures outcome == Done ==> MarkerAt(card, s.Pending()) == Holds(token)
      ensures outcome != Refused && (outcome == Stopped ==> old(left).Some?)
    {
      hide Capture, Rest, IsTree, Clean;
      var current := Current(MarkerAt(card, s.Pending()));
      var content;
      outcome, content := WriteMarker(current, token, stop);
      if content != current {
        MarkerChanges(s, card, content);
        card := card[s.Pending() := File(content.value)];
      }
    }

    /** The capture goes from the card: files first, then the directories left empty. */
    method RemoveAll(inventory: map<Path, Entry>, ghost r: Receipt, ghost card0: Tree, token: Bytes)
      returns (outcome: ReuseOutcome)
      requires Begun(s, r, card0, archive) && Cleaning(s, r, card0, archive, card) && token == s.token(r)
      requires Capture(s.rules, card) == Capture(s.rules, card0) && inventory == Entries(s.rules, Capture(s.rules, card0))
      modifies this`card, this`left
      ensures left.None? <==> old(left).None?
      ensures Cleaning(s, r, card0, archive, card)
      ensures outcome == Done ==> Capture(s.rules, card) == map[]
      ensures outcome != Refused && (outcome == Stopped ==> old(left).Some?)
    {
      hide *;
      CleaningFacts(s, r, card0, archive, card);
      ghost var gone;
      outcome, gone := RemoveFiles(inventory, token);
      FilesRemoved(s, r, card0, archive, old(card), gone);
      if outcome != Done {
        return;
      }
      DirectoriesLeft(s, old(card), gone, inventory);
      CleaningFacts(s, r, card0, archive, card);
      ghost var emptied := card;
      outcome, gone := RemoveDirectories(inventory, token);
      DirectoriesRemoved(s, r, card0, archive, emptied, gone);
    }

    /** The completion marker on the host, and only then the end of the marker on the card. */
    method Finish(ghost r: Receipt, ghost card0: Tree, token: Bytes, stop: Stop) returns (outcome: ReuseOutcome)
      requires Begun(s, r, card0, archive) && Cleaning(s, r, card0, archive, card) && Capture(s.rules, card) == map[]
      requires token == s.token(r) && archive.Copies?
      modifies this`card, this`archive, this`left
      ensures archive.Copies? && archive == old(archive).(complete := archive.complete)
      ensures Landed(s, card0, old(archive), card, archive)
      ensures outcome == Done ==> Ready(s, card) && archive.complete == Some(token)
      ensures outcome == Refused ==> !Published(s, card0, old(archive))
      ensures outcome == Stopped ==> old(left).Some?
    {
      ghost var archive0 := archive;
      hide *;
      BegunFacts(s, r, card0, archive);
      CleaningFacts(s, r, card0, archive, card);
      CleanedCard(s, r, card0, archive, card);
      MarkerWhileCleaning(s, r, card0, archive, card);
      NothingLeft(s, r, card0, archive, card);
      var inventory := CaptureWalk(s.rules, card);
      if inventory != Some(map[]) {
        return Refused;
      }
      var complete;
      outcome, complete := WriteMarker(archive.complete, token, stop);
      archive := archive.(complete := complete);
      CompletingLands(s, r, card0, archive0, card, archive);
      if outcome != Done {
        return;
      }
      var pending := MarkerAt(card, s.Pending());
      if !pending.Absent? {
        if pending != Holds(token) {
          return Refused;
        }
        var go := Step();
        if !go {
          return Stopped;
        }
        UnmarkedLands(s, r, card0, archive0, card, archive);
        card := card - {s.Pending()};
      }
      if !Ready(s, card) {
        return Refused;
      }
      return Done;
    }

    /** After the receipt: mark, remove, complete, unmark. */
    method Cleanup(inventory: map<Path, Entry>, ghost r: Receipt, stop: Stop) returns (outcome: ReuseOutcome)
      requires Begun(s, r, card, archive) && inventory == Entries(s.rules, Capture(s.rules, card))
      modifies this`card, this`archive, this`left
      ensures archive.Copies? && old(archive).Copies? && archive == old(archive).(complete := archive.complete)
      ensures Landed(s, old(card), old(archive), card, archive)
      ensures outcome == Done ==> Ready(s, card) && archive.complete == Some(s.token(r))
      ensures outcome == Refused ==> !Published(s, old(card), old(archive))
      ensures outcome == Stopped ==> old(left).Some?
    {
      ghost var card0, archive0 := card, archive;
      hide *;
      BegunFacts(s, r, card, archive);
      var receipt := ReadBack();
      var token := s.token(receipt.value);
      if Complete(archive) != Holds(token) {
        outcome := MarkPending(token, stop);
        if outcome != Done {
          MarkingLands(s, r, card0, archive0, card);
          return;
        }
        MarkedIsCleaning(s, r, card0, archive0, card);
      }
      outcome := RemoveAll(inventory, r, card0, token);
      if outcome != Done {
        CleaningLands(s, r, card0, archive0, card);
        return;
      }
      outcome := Finish(r, card0, token, stop);
    }

    /**
     * One call, from any state of card and archive and with a stop anywhere in it. A refusal before the plan is accepted
     * touches nothing; nothing is ever lost; a published archive stays one that a resume accepts; and a completed
     * archive removes nothing any more.
     */
    method Reuse(resume: bool, stop: Stop) returns (outcome: ReuseOutcome)
      requires Sound(s, card, archive)
      modifies this`card, this`archive, this`left
      ensures Sound(s, card, archive)
      ensures Inspection(s, old(card), old(archive), resume).None? ==>
                outcome == Refused && card == old(card) && archive == old(archive)
      ensures Safe(s, old(card), card, archive)
      ensures old(archive).Copies? ==> archive.Copies? && archive == old(archive).(complete := archive.complete)
      ensures old(archive).Copies? && old(archive).complete.Some? ==> Capture(s.rules, card) == Capture(s.rules, old(card))
      ensures resume && Published(s, old(card), old(archive)) ==> Published(s, card, archive) && outcome != Refused
      ensures !resume && Inspection(s, old(card), old(archive), resume).Some? ==>
                outcome != Refused
                && if archive.Copies? && archive.receipt.Written?
                   then Published(s, card, archive) && archive.files == Capture(s.rules, old(card))
                   else outcome == Stopped && card == old(card)
      ensures outcome == Done ==> Ready(s, card) && archive.Copies? && archive.receipt.Written?
                                  && archive.complete == Some(s.token(archive.receipt.receipt))
      ensures outcome == Stopped ==> stop.after.Some?
      ensures !resume ==> (outcome == Refused <==> !FirstCallFits(s, old(card), old(archive)))
      ensures resume && !ResumeFits(s, old(card), old(archive)) ==> outcome == Refused
      ensures outcome == Refused && (!resume || !ResumeFits(s, old(card), old(archive))) ==>
                card == old(card) && archive == old(archive)
    {
      hide *;
      left := stop.after;
      ghost var card0, archive0 := card, archive;
      SoundIsValid(s, card, archive);
      FirstCallExactly(s, card, archive);
      ResumeExactly(s, card, archive);
      var plan := Inspect(resume);
      Unmoved(s, card, archive);
      ResumeAccepted(s, card, archive);
      if plan.None? {
        return Refused;
      }
      PlanFacts(s, card, archive, resume);
      if !resume {
        outcome := Publish(plan.value.inventory, stop);
        Unmoved(s, card, archive);
        StillSound(s, card, archive0, archive);
        if outcome != Done {
          return;
        }
        PublishedFacts(s, card, archive);
      }
      ghost var published := archive;
      outcome := Cleanup(plan.value.inventory, archive.receipt.receipt, stop);
      ReuseEnds(s, published.receipt.receipt, card0, published, card, archive);
    }

    /**
     * A first call and then resumed ones, each stopped anywhere, and a last one that is let finish: if a receipt was
     * ever published the card ends ready and the archive holds the whole capture; if not, nothing has left the card. A
     * first call that is not stopped publishes one.
     */
    method ArchiveCapture(first: Stop, later: seq<Stop>) returns (outcome: ReuseOutcome)
      requires Sound(s, card, archive) && FirstCallFits(s, card, archive)
      modifies this`card, this`archive, this`left
      ensures if archive.Copies? && archive.receipt.Written?
              then outcome == Done && Ready(s, card) && archive.files == Capture(s.rules, old(card))
                   && archive.complete == Some(s.token(archive.receipt.receipt)) && Rest(s, card) == Rest(s, old(card))
                   && Moved(s, old(card), card, archive.files)
              else card == old(card)
      ensures first.after.None? ==> outcome == Done && archive.Copies? && archive.receipt.Written?
    {
      hide *;
      ghost var card0 := card;
      SoundIsValid(s, card, archive);
      FirstCallExactly(s, card, archive);
      FitsMissing(s, card, archive);
      outcome := Reuse(false, first);
      RestKept(s, card0, card, archive);
      if !archive.Copies? || !archive.receipt.Written? {
        return;
      }
      ghost var files, receipt := archive.files, archive.receipt;
      for i := 0 to |later|
        invariant Sound(s, card, archive) && Published(s, card, archive) && Rest(s, card) == Rest(s, card0)
        invariant archive.Copies? && archive.files == files && archive.receipt == receipt
      {
        ghost var before := card;
        outcome := Reuse(true, later[i]);
        RestKept(s, before, card, archive);
      }
      ghost var before := card;
      outcome := Reuse(true, Stop(None, None));
      RestKept(s, before, card, archive);
      AllMoved(s, card0, card, archive);
    }
  }

  /** Everything below the contract names is in the archive and not on the card; all the rest is as it was. */
  ghost predicate Moved(s: Setting, before: Tree, card: Tree, files: Tree) {
    && card == (map p <- before | !(|p| > 0 && p[0] in s.rules.roots) :: before[p])
    && files == map p <- before | |p| > 0 && p[0] in s.rules.roots :: before[p]
  }

  lemma AllMoved(s: Setting, card0: Tree, card: Tree, archive: Archive)
    requires s.Valid() && Published(s, card, archive) && archive.files == Capture(s.rules, card0)
    requires Rest(s, card) == Rest(s, card0) && Ready(s, card) && FirstCallFits(s, card0, Missing)
    requires archive.complete == Some(s.token(archive.receipt.receipt))
    ensures Moved(s, card0, card, archive.files)
  {
    hide *;
    CompleteIsEmpty(s, card, archive);
    RestIsAll(s, card);
    RestBefore(s, card0);
  }

  lemma CompleteIsEmpty(s: Setting, card: Tree, archive: Archive)
    requires s.Valid() && Published(s, card, archive) && archive.complete == Some(s.token(archive.receipt.receipt))
    ensures Capture(s.rules, card) == map[]
  {
    assert Complete(archive).Holds?;
    hide Inventory, Capture, Clean, Within, IsTree, Entries;
  }

  lemma RestIsAll(s: Setting, card: Tree)
    requires Capture(s.rules, card) == map[] && Ready(s, card)
    ensures card == Rest(s, card)
  {
    forall p <- card ensures !Captured(s.rules, p) {
      assert p !in Capture(s.rules, card);
    }
  }

  lemma RestBefore(s: Setting, card: Tree)
    requires s.Valid() && FirstCallFits(s, card, Missing)
    ensures Moved(s, card, Rest(s, card), Capture(s.rules, card))
  {
    hide Inventory;
  }

  lemma FitsMissing(s: Setting, card: Tree, archive: Archive)
    requires FirstCallFits(s, card, archive)
    ensures FirstCallFits(s, card, Missing)
  {
  }

  lemma SoundIsValid(s: Setting, card: Tree, archive: Archive)
    requires Sound(s, card, archive)
    ensures s.Valid()
  {
  }

  lemma RestKept(s: Setting, card0: Tree, card: Tree, archive: Archive)
    requires Safe(s, card0, card, archive)
    ensures Rest(s, card) == Rest(s, card0)
  {
    hide Authorised, Rest;
  }

  /** What an accepted plan means for the rest of the call. */
  lemma PlanFacts(s: Setting, card: Tree, archive: Archive, resume: bool)
    requires Sound(s, card, archive) && Inspection(s, card, archive, resume).Some?
    ensures var plan := Inspection(s, card, archive, resume).value;
            && plan.inventory == Entries(s.rules, Capture(s.rules, card)) && Inventory(s.rules, card) == Some(plan.inventory)
            && s.Sidecar() !in card
            && s.Valid() && (!resume ==> archive.Missing? && s.Pending() !in card && plan.inventory != map[])
            && (resume ==> archive.Copies? && archive.receipt.Written? && Begun(s, archive.receipt.receipt, card, archive))
  {
    hide IsTree, Clean, AllPermitted, Total, Identify, MayResume;
  }

  lemma PublishedFacts(s: Setting, card: Tree, archive: Archive)
    requires s.Valid() && Published(s, card, archive)
    ensures archive.receipt.Written? && Begun(s, archive.receipt.receipt, card, archive)
  {
    ArchiveReads(s, card, archive);
    ResumeDecision(s, card, archive);
    hide IsTree, Clean, Inventory, ReadReceipt, MayResume, MarkersFit, Within, MarkerAt, Capture, Entries;
  }

  lemma Unmoved(s: Setting, card: Tree, archive: Archive)
    ensures Safe(s, card, card, archive)
  {
  }

  lemma ResumeAccepted(s: Setting, card: Tree, archive: Archive)
    requires Sound(s, card, archive)
    ensures Published(s, card, archive) ==> Inspection(s, card, archive, true).Some?
  {
    hide Published, Inspection;
    if Published(s, card, archive) {
      PublishedResumes(s, card, archive);
    }
  }

  lemma StillSound(s: Setting, card: Tree, archive0: Archive, archive: Archive)
    requires Sound(s, card, archive0)
    requires archive.Copies? && archive.receipt.Written? ==> Published(s, card, archive)
    ensures Sound(s, card, archive)
  {
  }

  lemma ReuseEnds(s: Setting, r: Receipt, card0: Tree, archive0: Archive, card: Tree, archive: Archive)
    requires Begun(s, r, card0, archive0) && Landed(s, card0, archive0, card, archive)
    requires archive.Copies? && archive == archive0.(complete := archive.complete)
    ensures archive.receipt == Written(r) && Sound(s, card, archive) && Safe(s, card0, card, archive)
    ensures Published(s, card0, archive0) ==> Published(s, card, archive)
    ensures archive0.complete.Some? ==> Capture(s.rules, card) == Capture(s.rules, card0)
  {
    EmptyEntries(s.rules, Capture(s.rules, card0));
    hide IsTree, Clean, Inventory, Published, Capture, Entries, MarkerAt, Authorised, Covered, Rest;
  }

  /** What the removal loops need to know. */
  lemma CleaningFacts(s: Setting, r: Receipt, card0: Tree, archive: Archive, card: Tree)
    requires Begun(s, r, card0, archive) && Cleaning(s, r, card0, archive, card)
    ensures s.Valid() && archive.Copies? && IsTree(card)
    ensures Capture(s.rules, card) != map[] ==> MarkerAt(card, s.Pending()) == Holds(s.token(r))
    ensures Capture(s.rules, card) == Capture(s.rules, card0) ==>
              Vouched(s, card, archive.files, Entries(s.rules, Capture(s.rules, card0)), s.token(r))
  {
    EmptyEntries(s.rules, Capture(s.rules, card0));
    hide IsTree, Clean, AllPermitted, Total, Rest, Identify, MarkerAt;
  }

  lemma FilesRemoved(s: Setting, r: Receipt, card0: Tree, archive: Archive, card: Tree, gone: set<Path>)
    requires Begun(s, r, card0, archive) && Cleaning(s, r, card0, archive, card)
    requires gone <= FilesIn(Capture(s.rules, card))
    ensures Cleaning(s, r, card0, archive, Without(card, gone))
  {
    hide Clean, Inventory, Rest, MarkerAt, Identify, Covered, ReadReceipt, Entries;
    CleaningStep(s, r, card0, archive, card, gone);
  }

  lemma DirectoriesLeft(s: Setting, card: Tree, gone: set<Path>, inventory: map<Path, Entry>)
    requires gone == FilesIn(Capture(s.rules, card)) && inventory == Entries(s.rules, Capture(s.rules, card))
    ensures (set p <- inventory | inventory[p].DirectoryEntry?) == Capture(s.rules, Without(card, gone)).Keys
  {
  }

  lemma DirectoriesRemoved(s: Setting, r: Receipt, card0: Tree, archive: Archive, card: Tree, gone: set<Path>)
    requires Begun(s, r, card0, archive) && Cleaning(s, r, card0, archive, card)
    requires gone <= Capture(s.rules, card).Keys && IsTree(Without(card, gone))
    ensures Cleaning(s, r, card0, archive, Without(card, gone))
    ensures gone == Capture(s.rules, card).Keys ==> Capture(s.rules, Without(card, gone)) == map[]
  {
    hide Clean, Inventory, Rest, MarkerAt, Identify, Covered, ReadReceipt, Entries, Capture;
    CleaningStep(s, r, card0, archive, card, gone);
  }

  lemma BegunFacts(s: Setting, r: Receipt, card: Tree, archive: Archive)
    requires Begun(s, r, card, archive)
    ensures s.Valid() && IsTree(card) && archive.Copies? && IsTree(archive.files) && ReadReceipt(s, archive) == Some(r)
    ensures |s.token(r)| == 65 && Begins(MarkerAt(card, s.Pending()), s.token(r))
    ensures !MarkerIn(archive.complete).Unreadable? && Begins(MarkerIn(archive.complete), s.token(r))
    ensures Complete(archive) == Holds(s.token(r)) <==> archive.complete == Some(s.token(r))
    ensures Complete(archive) == Holds(s.token(r)) ==> Cleaning(s, r, card, archive, card)
  {
    hide IsTree, Clean, AllPermitted, Total, Rest, Identify, MarkerAt, ReadReceipt, Inventory, Capture, Entries;
  }

  lemma MarkedIsCleaning(s: Setting, r: Receipt, card0: Tree, archive: Archive, card: Tree)
    requires Resembles(s, card0, card) && Capture(s.rules, card) == Capture(s.rules, card0)
    requires Complete(archive) != Holds(s.token(r)) && MarkerAt(card, s.Pending()) == Holds(s.token(r))
    ensures Cleaning(s, r, card0, archive, card)
  {
    hide Capture, Resembles;
  }

  lemma CleanedCard(s: Setting, r: Receipt, card0: Tree, archive: Archive, card: Tree)
    requires Begun(s, r, card0, archive) && Cleaning(s, r, card0, archive, card) && Capture(s.rules, card) == map[]
    ensures Ready(s, card - {s.Pending()}) && (MarkerAt(card, s.Pending()).Absent? ==> Ready(s, card))
  {
    var bare := card - {s.Pending()};
    assert MarkerAt(card, s.Pending()).Absent? ==> bare == card;
    MarkerChanges(s, card, None) by {
      MarkerWhileCleaning(s, r, card0, archive, card);
    }
    hide Ready, Capture, Rest, ReadReceipt, MayResume, Misspelt, MarkerAt, Entries, Total, AllPermitted, IsTree;
    CleanedIsReady(s, bare);
  }

  /** Every entry to be removed is on the card, in the archive, and, if there is any, under the marker. */
  ghost predicate Vouched(s: Setting, card: Tree, files: Tree, inventory: map<Path, Entry>, token: Bytes) {
    && inventory == Entries(s.rules, Capture(s.rules, card))
    && (forall p <- inventory :: p in files && Identify(s.rules, files[p]) == inventory[p])
    && (inventory != map[] ==> MarkerAt(card, s.Pending()) == Holds(token))
  }

  lemma FileNames(s: Setting, card: Tree, files: Tree, inventory: map<Path, Entry>, token: Bytes)
    requires Vouched(s, card, files, inventory, token)
    ensures (set p <- inventory | inventory[p].FileEntry?) == FilesIn(Capture(s.rules, card))
  {
  }

  lemma StillVouched(s: Setting, start: Tree, files: Tree, inventory: map<Path, Entry>, token: Bytes,
                     gone: set<Path>, name: Path)
    requires s.Valid() && Vouched(s, start, files, inventory, token)
    requires name in Yet(FilesIn(Capture(s.rules, start)), gone) && gone <= FilesIn(Capture(s.rules, start))
    ensures name in Without(start, gone) && name in inventory && name in files
    ensures Identify(s.rules, files[name]) == inventory[name] == Identify(s.rules, Without(start, gone)[name])
    ensures MarkerAt(Without(start, gone), s.Pending()) == Holds(token)
  {
    hide Identify;
    assert s.Pending() !in gone;
  }

  lemma DirectoryEmptied(s: Setting, start: Tree, gone: set<Path>, name: Path)
    requires s.Valid() && IsTree(Without(start, gone)) && gone <= Capture(s.rules, start).Keys
    requires name in Yet(Capture(s.rules, start).Keys, gone)
    requires forall p <- Yet(Capture(s.rules, start).Keys, gone) :: |p| <= |name|
    ensures !exists p <- Without(start, gone) :: IsChild(name, p)
    ensures IsTree(Without(start, gone) - {name}) && Capture(s.rules, start) != map[]
    ensures MarkerAt(Without(start, gone), s.Pending()) == MarkerAt(start, s.Pending())
  {
    assert s.Pending() !in gone;
    forall p <- start - gone ensures !IsChild(name, p) {
      if IsChild(name, p) {
        assert false;
      }
    }
  }

  /** The copies, once complete, are what the receipt about to be written will say. */
  lemma FreshlyPublished(s: Setting, card: Tree)
    requires s.Valid() && IsTree(card) && Inventory(s.rules, card).Some? && Capture(s.rules, card) != map[]
    requires s.Sidecar() !in card && s.Pending() !in card
    ensures Inventory(s.rules, Capture(s.rules, card)) == Inventory(s.rules, card)
    ensures var found := Capture(s.rules, card);
            Published(s, card, Copies(found, Written(ReceiptFor(s, found)), None))
  {
    var found := Capture(s.rules, card);
    CaptureIsTree(s.rules, card);
    assert Capture(s.rules, found) == found;
    hide Total, Permitted, Identify;
  }
}
