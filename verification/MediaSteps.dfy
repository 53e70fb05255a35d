/** A card as a map from names to bytes, changed by steps that may fail without effect or be the last before a crash. */
module MediaSteps {
  import opened Common

  /** What becomes of a step; a write that fails or crashes may have left the beginning of its content behind. */
  datatype Fate = Well | Fails(left: Option<nat>) | Crashes(left: Option<nat>)

  type Files<N> = map<N, Bytes>

  /** One name has new content, or none, and every other name keeps what it had. */
  ghost predicate Updated<N(!new)>(before: Files<N>, after: Files<N>, name: N, content: Option<Bytes>) {
    Get(after, name) == content && forall n :: n != name ==> Get(after, n) == Get(before, n)
  }

  /** What was under `from` is under `to`, in place of anything there. */
  ghost predicate Renamed<N(!new)>(before: Files<N>, after: Files<N>, from: N, to: N) {
    && Get(before, from).Some? && Get(after, to) == Get(before, from) && Get(after, from).None?
    && forall n :: n != from && n != to ==> Get(after, n) == Get(before, n)
  }

  /** What an interrupted exclusive write may leave: nothing new, or a file with the beginning of the content. */
  ghost predicate Interrupted<N(!new)>(before: Files<N>, after: Files<N>, name: N, content: Bytes) {
    || after == before
    || (Get(before, name).None? && Get(after, name).Some? && Get(after, name).value <= content
        && forall n :: n != name ==> Get(after, n) == Get(before, n))
  }

  lemma SameFiles<N(!new)>(a: Files<N>, b: Files<N>)
    requires forall n :: Get(a, n) == Get(b, n)
    ensures a == b
  {
    forall n | n in a || n in b ensures n in a && n in b && a[n] == b[n] {
      assert Get(a, n) == Get(b, n);
    }
  }

  /** The fate of the next step; after the last one in the schedule all steps go well. */
  function Head(fates: seq<Fate>): Fate { if fates == [] then Well else fates[0] }

  function Rest(fates: seq<Fate>): seq<Fate> { if fates == [] then [] else fates[1..] }

  /** The first step that does not go well is the one after that many, and it fails. */
  predicate FailsAfter(fates: seq<Fate>, wells: nat) {
    if wells == 0 then Head(fates).Fails? else Head(fates) == Well && FailsAfter(Rest(fates), wells - 1)
  }

  lemma FailsOn(fates: seq<Fate>, wells: nat)
    ensures FailsAfter(fates, wells) <==>
              if wells == 0 then Head(fates).Fails? else Head(fates) == Well && FailsAfter(Rest(fates), wells - 1)
  {
  }

  predicate NoCrash(fates: seq<Fate>) { forall f <- fates :: !f.Crashes? }

  /** How many steps of a schedule fail. */
  function FailsIn(fates: seq<Fate>): nat {
    if fates == [] then 0 else (if fates[0].Fails? then 1 else 0) + FailsIn(fates[1..])
  }

  /** One step may fail, and none crashes. */
  predicate OneFails(fates: seq<Fate>) { NoCrash(fates) && FailsIn(fates) <= 1 }

  lemma OneStep(fates: seq<Fate>)
    ensures NoCrash(fates) ==> !Head(fates).Crashes? && NoCrash(Rest(fates))
    ensures FailsIn(fates) == (if Head(fates).Fails? then 1 else 0) + FailsIn(Rest(fates))
  {
  }

  function Wells(n: nat): seq<Fate> { seq(n, _ => Well) }

  /** That many steps go well, and then this comes. */
  predicate Ahead(fates: seq<Fate>, wells: nat, later: seq<Fate>) { fates == Wells(wells) + later }

  lemma AheadNow(fates: seq<Fate>, later: seq<Fate>)
    ensures Ahead(fates, 0, later) ==> fates == later
  {
    assert Wells(0) == [];
  }

  lemma AheadOne(fates: seq<Fate>, wells: nat, later: seq<Fate>)
    ensures Ahead(fates, wells, later) && wells >= 1 ==> Head(fates) == Well && Ahead(Rest(fates), wells - 1, later)
  {
    if Ahead(fates, wells, later) && wells >= 1 {
      assert fates[0] == Well && Rest(fates) == fates[1..] == Wells(wells - 1) + later;
    }
  }

  lemma AheadTwo(fates: seq<Fate>, wells: nat, later: seq<Fate>)
    ensures Ahead(fates, wells, later) && wells >= 2 ==>
              Head(fates) == Well && Head(Rest(fates)) == Well && Ahead(Rest(Rest(fates)), wells - 2, later)
  {
    hide Ahead, Head, Rest;
    AheadOne(fates, wells, later);
    if wells >= 1 {
      AheadOne(Rest(fates), wells - 1, later);
    }
  }

  lemma AheadFour(fates: seq<Fate>, wells: nat, later: seq<Fate>)
    ensures Ahead(fates, wells, later) && wells >= 4 ==>
              var next := Rest(Rest(fates));
              && Head(fates) == Well && Head(Rest(fates)) == Well && Head(next) == Well && Head(Rest(next)) == Well
              && Ahead(Rest(Rest(next)), wells - 4, later)
  {
    hide Ahead, Head, Rest;
    AheadTwo(fates, wells, later);
    if wells >= 2 {
      AheadTwo(Rest(Rest(fates)), wells - 2, later);
    }
  }

  lemma AheadSeven(fates: seq<Fate>, wells: nat, later: seq<Fate>)
    ensures Ahead(fates, wells, later) && wells >= 7 ==>
              var next := Rest(Rest(fates));
              var last := Rest(Rest(Rest(next)));
              && Head(fates) == Well && Head(Rest(fates)) == Well && Head(next) == Well && Head(Rest(next)) == Well
              && Head(Rest(Rest(next))) == Well && Head(last) == Well && Head(Rest(last)) == Well
              && Ahead(Rest(Rest(last)), wells - 7, later)
  {
    hide Ahead, Head, Rest;
    AheadFour(fates, wells, later);
    if wells >= 5 {
      var four := Rest(Rest(Rest(Rest(fates))));
      AheadOne(four, wells - 4, later);
      AheadTwo(Rest(four), wells - 5, later);
    }
  }

  /** What becomes of a write that is followed by a sync, and the fates after the two. */
  function Synced(fates: seq<Fate>): Fate { if Head(fates).Well? then Head(Rest(fates)) else Head(fates) }

  function Onward(fates: seq<Fate>): seq<Fate> { if Head(fates).Well? then Rest(Rest(fates)) else Rest(fates) }

  lemma NothingPlanned()
    ensures Head([]) == Well && Rest([]) == [] && Synced([]) == Well && Onward([]) == []
  {
  }

  class Card<N(==,!new)> {
    var files: Files<N>
    var fates: seq<Fate>
    var failures: nat

    /** The failures so far and those the schedule still holds: only a refusal adds to them. */
    ghost function Due(): nat
      reads this`fates, this`failures
    {
      failures + FailsIn(fates)
    }

    constructor (files: Files<N>, fates: seq<Fate>)
      ensures this.files == files && this.fates == fates && failures == 0
    {
      this.files, this.fates, failures := files, fates, 0;
    }

    method Next() returns (f: Fate)
      modifies this`fates, this`failures
      ensures failures == if f.Fails? then old(failures) + 1 else old(failures)
      ensures f == Head(old(fates)) && fates == Rest(old(fates))
      ensures (NoCrash(old(fates)) ==> !f.Crashes? && NoCrash(fates)) && Due() == old(Due())
    {
      OneStep(fates);
      f, fates := Head(fates), Rest(fates);
      if f.Fails? {
        failures := failures + 1;
      }
    }

    /** A failure that is no fate: the file system refuses. It counts as a failing step like any other. */
    method Refuse(f: Fate) returns (g: Fate)
      modifies this`failures
      ensures g == if f.Well? then Fails(None) else f
      ensures failures == if f.Well? then old(failures) + 1 else old(failures)
    {
      g := f;
      if f.Well? {
        failures, g := failures + 1, Fails(None);
      }
    }

    method Rename(from: N, to: N) returns (f: Fate)
      requires from != to
      modifies this
      ensures failures == if f.Fails? then old(failures) + 1 else old(failures)
      ensures fates == Rest(old(fates)) && (from in old(files) ==> f == Head(old(fates)))
      ensures from !in old(files) ==> !f.Well? && (f.Crashes? ==> f == Head(old(fates)))
      ensures if f.Well? then Renamed(old(files), files, from, to) else files == old(files)
      ensures (NoCrash(old(fates)) ==> !f.Crashes? && NoCrash(fates)) && (from in old(files) ==> Due() == old(Due()))
    {
      f := Next();
      if from !in files {
        f := Refuse(f);
      } else if f.Well? {
        files := (files - {from})[to := files[from]];
      }
    }

    method Unlink(name: N) returns (f: Fate)
      modifies this
      ensures failures == if f.Fails? then old(failures) + 1 else old(failures)
      ensures fates == Rest(old(fates)) && (name in old(files) ==> f == Head(old(fates)))
      ensures name !in old(files) ==> !f.Well? && (f.Crashes? ==> f == Head(old(fates)))
      ensures if f.Well? then Updated(old(files), files, name, None) else files == old(files)
      ensures (NoCrash(old(fates)) ==> !f.Crashes? && NoCrash(fates)) && (name in old(files) ==> Due() == old(Due()))
    {
      f := Next();
      if name !in files {
        f := Refuse(f);
      } else if f.Well? {
        files := files - {name};
      }
    }

    /** Unlink that does not mind if there is nothing to unlink. */
    method Discard(name: N) returns (f: Fate)
      modifies this
      ensures failures == if f.Fails? then old(failures) + 1 else old(failures)
      ensures f == Head(old(fates)) && fates == Rest(old(fates))
      ensures (NoCrash(old(fates)) ==> !f.Crashes? && NoCrash(fates)) && Due() == old(Due())
      ensures if f.Well? then Updated(old(files), files, name, None) else files == old(files)
    {
      f := Next();
      if f.Well? {
        files := files - {name};
      }
    }

    /** A verified temporary: created exclusively, written, synced and read back. */
    method WriteNew(name: N, content: Bytes) returns (f: Fate)
      modifies this
      ensures failures == if f.Fails? then old(failures) + 1 else old(failures)
      ensures fates == Rest(old(fates)) && (name !in old(files) ==> f == Head(old(fates)))
      ensures name in old(files) ==> !f.Well? && (f.Crashes? ==> f == Head(old(fates)))
      ensures if f.Well? then Updated(old(files), files, name, Some(content))
              else Interrupted(old(files), files, name, content)
      ensures !f.Well? && f.left.Some? && name !in old(files) ==> name in files
      ensures (NoCrash(old(fates)) ==> !f.Crashes? && NoCrash(fates)) && (name !in old(files) ==> Due() == old(Due()))
    {
      f := Next();
      if name in files {
        f := Refuse(f);
      } else if f.Well? {
        files := files[name := content];
      } else if f.left.Some? {
        files := files[name := if f.left.value < |content| then content[..f.left.value] else content];
      }
    }

    method Sync() returns (f: Fate)
      modifies this`fates, this`failures
      ensures failures == if f.Fails? then old(failures) + 1 else old(failures)
      ensures f == Head(old(fates)) && fates == Rest(old(fates))
      ensures (NoCrash(old(fates)) ==> !f.Crashes? && NoCrash(fates)) && Due() == old(Due())
    {
      f := Next();
    }
  }
  /** What is spent and what is to come, read off the card. */
  lemma Spending<N(!new)>(card: Card<N>)
    ensures card.Due() == card.failures + FailsIn(card.fates)
    ensures OneFails(card.fates) <==> NoCrash(card.fates) && FailsIn(card.fates) <= 1
  {
  }
}
