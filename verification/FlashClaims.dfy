/** The claims the fault matrix samples, for every fault: activation last, frames, classification, retries. */
module FlashClaims {
  import opened Common
  import opened Layout
  import opened Nor
  import opened Flashing
  import opened Installers
  import opened FlashSafety

  /* ---- Activation last, and what is never touched ---- */

  ghost predicate ActivationLastHolds(c: Bytes, ws: seq<RegionWrite>, d: Bytes)
    requires Plan(|c|, ws) && |c| == NOR_SIZE
  {
    |d| == |c| &&
    (d[MTD1.offset..MTD1.offset + ERASE_BLOCK] != c[MTD1.offset..MTD1.offset + ERASE_BLOCK] ==>
       forall j :: 0 <= j < |ws| - 1 ==> d[ws[j].offset..ws[j].End()] == Padded(ws[j].payload, ws[j].span))
  }

  lemma EndedActivatesLast(c: Bytes, ws: seq<RegionWrite>, phase: Phase, r: Machine)
    requires |c| == NOR_SIZE && Plan(|c|, ws) && ws != [] && Ended(c, ws, phase, r)
    requires ws[|ws| - 1].offset == MTD1.offset && ws[|ws| - 1].span == ERASE_BLOCK
    ensures ActivationLastHolds(c, ws, r.chip.flash)
  {
    var d := r.chip.flash;
    assert |d| == |c|;
    var from, to := MTD1.offset, MTD1.offset + ERASE_BLOCK;
    hide Plan, Ended, Padded;
    if d[from..to] != c[from..to] {
      var p := Difference(d, c, from, to);
      forall j | 0 <= j < |ws| - 1
        ensures d[ws[j].offset..ws[j].End()] == Padded(ws[j].payload, ws[j].span)
      {
        EndedRegion(c, ws, phase, r, p, j);
      }
    }
  }

  lemma Difference(d: Bytes, c: Bytes, from: nat, to: nat) returns (p: nat)
    requires from <= to <= |c| == |d| && d[from..to] != c[from..to]
    ensures from <= p < to && d[p] != c[p]
  {
    var k :| 0 <= k < to - from && d[from..to][k] != c[from..to][k];
    p := from + k;
  }

  /** Where the last region has changed, every other one is final. */
  lemma EndedRegion(c: Bytes, ws: seq<RegionWrite>, phase: Phase, r: Machine, p: nat, j: nat)
    requires Plan(|c|, ws) && Ended(c, ws, phase, r) && |r.chip.flash| == |c| && p < |c| && j < |ws| - 1
    requires ws[|ws| - 1].Covers(p) && r.chip.flash[p] != c[p] && |ws[j].payload| <= ws[j].span && ws[j].End() <= |c|
    requires 0 <= ws[j].offset <= ws[j].End()
    ensures r.chip.flash[ws[j].offset..ws[j].End()] == Padded(ws[j].payload, ws[j].span)
  {
    hide Plan;
    if r.Live() {
      AppliedRegion(c, ws, j);
    } else {
      ActivationLast(c, ws, r.chip.fault.failAt, r.chip.flash, p, j);
    }
  }

  lemma EndedSpares(c: Bytes, ws: seq<RegionWrite>, phase: Phase, r: Machine, p: Partition)
    requires |c| == NOR_SIZE && Plan(|c|, ws) && Ended(c, ws, phase, r) && p.End() <= NOR_SIZE
    requires forall j :: 0 <= j < |ws| ==> ws[j].End() <= p.offset || p.End() <= ws[j].offset
    ensures r.Content(p) == c[p.offset..p.End()]
  {
    assert |r.chip.flash| == |c|;
    forall q: nat | p.offset <= q < p.End() ensures r.chip.flash[q] == c[q] {
      EndedFrame(c, ws, phase, r, q);
    }
  }

  ghost predicate SparesProtected(m: Machine, r: Machine) {
    r.Content(MTD0) == m.Content(MTD0) && r.Content(MTD4) == m.Content(MTD4) && r.Content(MTD5) == m.Content(MTD5)
  }

  /** The plan stays within mtd1, mtd2 and mtd3, and its last region is the activation block. */
  ghost predicate ActivationPlan(ws: seq<RegionWrite>) {
    && (forall j :: 0 <= j < |ws| ==> MTD1.offset <= ws[j].offset && ws[j].End() <= MTD3.End())
    && ws != [] && ws[|ws| - 1].offset == MTD1.offset && ws[|ws| - 1].span == ERASE_BLOCK
  }

  lemma EndedIsSafe(m: Machine, ws: seq<RegionWrite>, phase: Phase, r: Machine)
    requires |m.chip.flash| == NOR_SIZE && Plan(NOR_SIZE, ws) && ActivationPlan(ws) && Ended(m.chip.flash, ws, phase, r)
    ensures SparesProtected(m, r) && ActivationLastHolds(m.chip.flash, ws, r.chip.flash)
  {
    hide Plan, Ended;
    EndedActivatesLast(m.chip.flash, ws, phase, r);
    EndedSpares(m.chip.flash, ws, phase, r, MTD0);
    EndedSpares(m.chip.flash, ws, phase, r, MTD4);
    EndedSpares(m.chip.flash, ws, phase, r, MTD5);
  }

  /** A final install, cut anywhere: boot and both preserved user partitions untouched, activation block last. */
  lemma FinalIsSafe(sha: Hasher, m: Machine, i: FinalImages)
    requires ValidFinal(i) && |m.chip.flash| == NOR_SIZE && m.Live() && m.phase == INSTALLER_BOOTED
    ensures Plan(NOR_SIZE, FinalWrites(i))
    ensures var r := FinalRun(sha, m, i);
            SparesProtected(m, r) && ActivationLastHolds(m.chip.flash, FinalWrites(i), r.chip.flash)
  {
    assert ActivationPlan(FinalWrites(i));
    FinalRunCuts(sha, m, i);
    hide ActivationPlan, FinalWrites, ValidFinal, Plan, FinalRun, Ended;
    EndedIsSafe(m, FinalWrites(i), FINAL_READBACK_VERIFIED, FinalRun(sha, m, i));
  }

  /** A stock restore, cut or refused anywhere; one of a chip with other protected partitions changes nothing. */
  lemma RestoreIsSafe(sha: Hasher, m: Machine, i: RestoreImages)
    requires ValidRestore(i) && |m.chip.flash| == NOR_SIZE && m.Live() && m.phase == BACKUP_VALIDATED
    ensures Plan(NOR_SIZE, RestoreWrites(i))
    ensures var r := RestoreRun(sha, m, i);
            && SparesProtected(m, r) && ActivationLastHolds(m.chip.flash, RestoreWrites(i), r.chip.flash)
            && (!Protected(i, m.chip.flash) ==> r.chip == m.chip.(outcome := Failed(ProtectedDiffers)))
  {
    assert ActivationPlan(RestoreWrites(i));
    RestorePlan(i);
    hide ActivationPlan, RestoreWrites, ValidRestore, Plan, RestoreRun, Ended, Protected, ActivationLastHolds;
    if Protected(i, m.chip.flash) {
      RestoreRunCuts(sha, m, i);
      EndedIsSafe(m, RestoreWrites(i), STOCK_RESTORE_COMPLETE, RestoreRun(sha, m, i));
    } else {
      RestoreRefuses(sha, m, i);
      SameChipIsSafe(m, RestoreWrites(i), RestoreRun(sha, m, i));
    }
  }

  lemma Stage2Spares(c: Bytes, i: Stage2Images, r: Machine, phase: Phase)
    requires ValidStage2(i) && |c| == NOR_SIZE && Plan(NOR_SIZE, Stage2Writes(i)) && Ended(c, Stage2Writes(i), phase, r)
    ensures r.Content(MTD2) == c[MTD2.offset..MTD2.End()]
    ensures i.mode == Preserve ==>
              r.Content(Partition(i.dataOffset, i.dataSpan)) == c[i.dataOffset..i.dataOffset + i.dataSpan]
  {
    hide Plan, Ended;
    EndedSpares(c, Stage2Writes(i), phase, r, MTD2);
    if i.mode == Preserve {
      EndedSpares(c, Stage2Writes(i), phase, r, Partition(i.dataOffset, i.dataSpan));
    }
  }

  lemma Stage2Activation(i: Stage2Images)
    requires ValidStage2(i)
    ensures ActivationPlan(Stage2Writes(i))
  {
  }

  /** Stage 2, cut or refused anywhere: also keeps the bootstrap root in mtd2, and in preserve mode the data region. */
  lemma Stage2IsSafe(sha: Hasher, m: Machine, i: Stage2Images)
    requires ValidStage2(i) && |m.chip.flash| == NOR_SIZE && m.Live() && m.phase == INSTALLER_BOOTED
    ensures Plan(NOR_SIZE, Stage2Writes(i))
    ensures var r := Stage2Run(sha, m, i);
            && SparesProtected(m, r) && r.Content(MTD2) == m.Content(MTD2)
            && (i.mode == Preserve ==>
                  r.Content(Partition(i.dataOffset, i.dataSpan)) == m.Content(Partition(i.dataOffset, i.dataSpan)))
            && ActivationLastHolds(m.chip.flash, Stage2Writes(i), r.chip.flash)
  {
    hide Plan, ActivationPlan, Stage2Writes, Stage2Run, Ended, Recoverable, CardStep, Secured, ActivationLastHolds;
    Stage2Plan(i);
    Stage2Activation(i);
    if Recoverable(sha, i, m.chip.flash, m.backup, m.checkpoint) {
      Stage2RunCuts(sha, m, i);
      EndedIsSafe(m, Stage2Writes(i), FINAL_READBACK_VERIFIED, Stage2Run(sha, m, i));
      Stage2Spares(m.chip.flash, i, Stage2Run(sha, m, i), FINAL_READBACK_VERIFIED);
    } else {
      Stage2Refuses(sha, m, i);
      SameChipIsSafe(m, Stage2Writes(i), Stage2Run(sha, m, i));
    }
  }

  lemma SameChipIsSafe(m: Machine, ws: seq<RegionWrite>, r: Machine)
    requires |m.chip.flash| == NOR_SIZE && Plan(NOR_SIZE, ws) && r.chip.flash == m.chip.flash
    ensures SparesProtected(m, r) && r.Content(MTD2) == m.Content(MTD2)
    ensures ActivationLastHolds(m.chip.flash, ws, r.chip.flash)
  {
    hide Plan;
  }

  /* ---- Classifying an interrupted restore ---- */

  datatype Verdict = Stop | Survivor | Unviable | Retry

  function Slice(c: Bytes, p: Partition): Bytes
    requires p.End() <= |c|
  {
    c[p.offset..p.End()]
  }

  /** The first erase block of an image, or all of a shorter one. */
  function Head(x: Bytes): Bytes {
    if |x| < ERASE_BLOCK then x else x[..ERASE_BLOCK]
  }

  function Classify(snapshot: Bytes, before: Bytes, i: RestoreImages): Verdict {
    if |snapshot| != NOR_SIZE || |before| != NOR_SIZE then Stop
    else if Slice(snapshot, MTD0) != Slice(before, MTD0) || Slice(snapshot, MTD4) != Slice(before, MTD4) ||
            Slice(snapshot, MTD5) != Slice(before, MTD5) then Stop
    else if Slice(snapshot, MTD1) == Slice(before, MTD1) && Slice(snapshot, MTD2) == Slice(before, MTD2) then Survivor
    else if Head(Slice(snapshot, MTD1)) != Head(Slice(before, MTD1)) && Head(Slice(snapshot, MTD1)) != Head(i.mtd1)
         then Unviable
    else if Slice(snapshot, MTD1) == i.mtd1 && Slice(snapshot, MTD2) == i.mtd2 && Slice(snapshot, MTD3) == i.mtd3
         then Survivor
    else Retry
  }

  lemma CutSpares(c: Bytes, ws: seq<RegionWrite>, e: Option<Event>, done: nat, d: Bytes, p: Partition)
    requires Plan(|c|, ws) && done <= |ws| && CutAt(c, ws, e, done, d) && p.End() <= |c|
    requires forall j :: 0 <= j < |ws| && j <= done ==> ws[j].End() <= p.offset || p.End() <= ws[j].offset
    ensures |d| == |c| && Slice(d, p) == Slice(c, p)
  {
    var base := Apply(c, ws[..done]);
    forall q: nat | p.offset <= q < p.End() ensures d[q] == c[q] {
      AppliedOutside(c, ws[..done], q);
    }
  }

  lemma SurvivesWhole(d: Bytes, c: Bytes, i: RestoreImages)
    requires |c| == NOR_SIZE == |d|
    requires Slice(d, MTD0) == Slice(c, MTD0) && Slice(d, MTD4) == Slice(c, MTD4) && Slice(d, MTD5) == Slice(c, MTD5)
    requires Slice(d, MTD1) == i.mtd1 && Slice(d, MTD2) == i.mtd2 && Slice(d, MTD3) == i.mtd3
    ensures Classify(d, c, i) == Survivor
  {
  }

  /** With every region complete the restored device is a survivor. */
  lemma CompleteSurvives(c: Bytes, i: RestoreImages)
    requires ValidRestore(i) && |c| == NOR_SIZE
    ensures Plan(NOR_SIZE, RestoreWrites(i)) && Classify(Apply(c, RestoreWrites(i)), c, i) == Survivor
  {
    RestoredChip(c, i);
    var d := Apply(c, RestoreWrites(i));
    RestoreSpares(c, i, MTD0);
    RestoreSpares(c, i, MTD4);
    RestoreSpares(c, i, MTD5);
    hide Apply, Plan, RestoreWrites, ValidRestore, Protected;
    SurvivesWhole(d, c, i);
  }

  lemma HeadIsBlock(c: Bytes)
    requires |c| == NOR_SIZE
    ensures Head(Slice(c, MTD1)) == Slice(c, Partition(MTD1.offset, ERASE_BLOCK))
  {
  }

  lemma RestoreApart(i: RestoreImages, done: nat, p: Partition)
    requires ValidRestore(i) && done < 4
    requires match done
      case 0 => p in {MTD0, MTD1, MTD2, MTD4, MTD5, Partition(MTD1.offset, ERASE_BLOCK)}
      case 1 => p in {MTD0, MTD1, MTD4, MTD5, Partition(MTD1.offset, ERASE_BLOCK)}
      case 2 => p in {MTD0, MTD4, MTD5, Partition(MTD1.offset, ERASE_BLOCK)}
      case _ => p in {MTD0, MTD4, MTD5}
    ensures forall j :: 0 <= j <= done ==>
              RestoreWrites(i)[j].End() <= p.offset || p.End() <= RestoreWrites(i)[j].offset
  {
  }

  lemma RestoreCutSpares(c: Bytes, i: RestoreImages, e: Option<Event>, done: nat, d: Bytes)
    requires ValidRestore(i) && |c| == NOR_SIZE && Plan(NOR_SIZE, RestoreWrites(i)) && done < 4
    requires CutAt(c, RestoreWrites(i), e, done, d)
    ensures |d| == NOR_SIZE && Slice(d, MTD0) == Slice(c, MTD0) && Slice(d, MTD4) == Slice(c, MTD4)
    ensures Slice(d, MTD5) == Slice(c, MTD5)
    ensures done < 3 ==> Head(Slice(d, MTD1)) == Head(Slice(c, MTD1))
    ensures done == 0 ==> Slice(d, MTD1) == Slice(c, MTD1) && Slice(d, MTD2) == Slice(c, MTD2)
  {
    hide Plan, CutAt, RestoreWrites, Slice, Head;
    RestoreCutSpare(c, i, e, done, d, MTD0);
    RestoreCutSpare(c, i, e, done, d, MTD4);
    RestoreCutSpare(c, i, e, done, d, MTD5);
    if done < 3 {
      RestoreCutSpare(c, i, e, done, d, Partition(MTD1.offset, ERASE_BLOCK));
      HeadIsBlock(c);
      HeadIsBlock(d);
    }
    if done == 0 {
      RestoreCutSpare(c, i, e, done, d, MTD1);
      RestoreCutSpare(c, i, e, done, d, MTD2);
    }
  }

  lemma RestoreCutSpare(c: Bytes, i: RestoreImages, e: Option<Event>, done: nat, d: Bytes, p: Partition)
    requires ValidRestore(i) && |c| == NOR_SIZE && Plan(NOR_SIZE, RestoreWrites(i)) && done < 4
    requires CutAt(c, RestoreWrites(i), e, done, d) && p.End() <= NOR_SIZE
    requires match done
      case 0 => p in {MTD0, MTD1, MTD2, MTD4, MTD5, Partition(MTD1.offset, ERASE_BLOCK)}
      case 1 => p in {MTD0, MTD1, MTD4, MTD5, Partition(MTD1.offset, ERASE_BLOCK)}
      case 2 => p in {MTD0, MTD4, MTD5, Partition(MTD1.offset, ERASE_BLOCK)}
      case _ => p in {MTD0, MTD4, MTD5}
    ensures |d| == NOR_SIZE && Slice(d, p) == Slice(c, p)
  {
    RestoreApart(i, done, p);
    hide Plan, CutAt, RestoreWrites;
    CutSpares(c, RestoreWrites(i), e, done, d, p);
  }

  /** The first `done` regions leave a partition apart from them as it was. */
  lemma RestoreBaseSpares(c: Bytes, i: RestoreImages, done: nat, p: Partition)
    requires ValidRestore(i) && |c| == NOR_SIZE && Plan(NOR_SIZE, RestoreWrites(i)) && done <= 4 && p.End() <= NOR_SIZE
    requires forall j :: 0 <= j < done ==> RestoreWrites(i)[j].End() <= p.offset || p.End() <= RestoreWrites(i)[j].offset
    ensures var base := Apply(c, RestoreWrites(i)[..done]); |base| == NOR_SIZE && Slice(base, p) == Slice(c, p)
  {
    FrameOf(c, RestoreWrites(i)[..done], Apply(c, RestoreWrites(i)[..done]), p);
  }

  lemma NotUnviable(c: Bytes, i: RestoreImages, d: Bytes)
    requires |c| == NOR_SIZE == |d| && Head(Slice(d, MTD1)) == Head(Slice(c, MTD1))
    requires Slice(d, MTD0) == Slice(c, MTD0) && Slice(d, MTD4) == Slice(c, MTD4) && Slice(d, MTD5) == Slice(c, MTD5)
    ensures Classify(d, c, i) in {Survivor, Retry}
    ensures Slice(d, MTD1) == Slice(c, MTD1) && Slice(d, MTD2) == Slice(c, MTD2) ==> Classify(d, c, i) == Survivor
  {
  }

  /** What the event says about how far a cut restore has come. */
  lemma RestoreCutPlaces(c: Bytes, i: RestoreImages, e: Option<Event>, done: nat, d: Bytes)
    requires ValidRestore(i) && |c| == NOR_SIZE && Plan(NOR_SIZE, RestoreWrites(i)) && done <= 4
    requires CutAt(c, RestoreWrites(i), e, done, d)
    ensures PastLastPage(e, RestoreWrites(i)[3]) ==> done == 4
    ensures done == 4 ==> d == Apply(c, RestoreWrites(i))
    ensures Concerns(e, StockMtd3) ==> done == 0 || (done == 1 && d == Apply(c, RestoreWrites(i)[..1]))
    ensures done == 3 && d != Apply(c, RestoreWrites(i)[..3]) ==>
              Concerns(e, StockActivation) && !PastLastPage(e, RestoreWrites(i)[3])
  {
    var ws := RestoreWrites(i);
    assert ws[..4] == ws;
    assert ws[0].op == StockMtd3 && ws[1].op == StockMtd2 && ws[3].op == StockActivation;
    hide Plan, Apply, RestoreWrites, ValidRestore;
    assert PastLastPage(e, ws[3]) ==> Concerns(e, ws[3].op);
    assert Concerns(e, StockMtd3) ==> !Concerns(e, StockMtd2);
  }

  lemma RestoreBaseKept(c: Bytes, i: RestoreImages)
    requires ValidRestore(i) && |c| == NOR_SIZE && Plan(NOR_SIZE, RestoreWrites(i))
    ensures var d := Apply(c, RestoreWrites(i)[..1]);
            |d| == NOR_SIZE && Slice(d, MTD1) == Slice(c, MTD1) && Slice(d, MTD2) == Slice(c, MTD2)
    ensures var d := Apply(c, RestoreWrites(i)[..3]); |d| == NOR_SIZE && Head(Slice(d, MTD1)) == Head(Slice(c, MTD1))
  {
    var kernelLeft := Apply(c, RestoreWrites(i)[..3]);
    hide Plan, Apply, Head, Slice;
    RestoreBaseSpares(c, i, 1, MTD1);
    RestoreBaseSpares(c, i, 1, MTD2);
    RestoreBaseSpares(c, i, 3, Partition(MTD1.offset, ERASE_BLOCK));
    HeadIsBlock(c);
    HeadIsBlock(kernelLeft);
  }

  /* ---- The verdicts, told from the bytes ---- */

  /** The first erase block of mtd1 is neither the one before nor the one to be restored. */
  predicate Torn(d: Bytes, c: Bytes, i: RestoreImages)
    requires |c| == NOR_SIZE == |d|
  {
    d[0x40000..0x50000] != c[0x40000..0x50000] && !(d[0x40000..0x50000] <= i.mtd1)
  }

  /** Kernel and root are those before the restore, or all three partitions are restored. */
  predicate Whole(d: Bytes, c: Bytes, i: RestoreImages)
    requires |c| == NOR_SIZE == |d|
  {
    || d[0x40000..0x680000] == c[0x40000..0x680000]
    || (d[0x40000..0x200000] == i.mtd1 && d[0x200000..0x680000] == i.mtd2 && d[0x680000..0xE40000] == i.mtd3)
  }

  /** What was before mtd1 and behind mtd3 still is. */
  predicate Spared(d: Bytes, c: Bytes)
    requires |c| == NOR_SIZE == |d|
  {
    d[..0x40000] == c[..0x40000] && d[0xE40000..] == c[0xE40000..]
  }

  /**
   * Each verdict, for every snapshot: stop exactly if something else has changed, or a dump has the wrong size; unviable
   * exactly if the activation block is torn; survivor exactly if the device is whole, as it was or as restored; and retry
   * if none of these. No snapshot is both torn and whole, so the order of the questions does not matter.
   */
  lemma VerdictExactly(d: Bytes, c: Bytes, i: RestoreImages)
    ensures |d| != NOR_SIZE || |c| != NOR_SIZE ==> Classify(d, c, i) == Stop
    ensures |d| == NOR_SIZE == |c| ==>
              && !(Torn(d, c, i) && Whole(d, c, i))
              && (Classify(d, c, i) == Stop <==> !Spared(d, c))
              && (Classify(d, c, i) == Unviable <==> Spared(d, c) && Torn(d, c, i))
              && (Classify(d, c, i) == Survivor <==> Spared(d, c) && Whole(d, c, i))
              && (Classify(d, c, i) == Retry <==> Spared(d, c) && !Torn(d, c, i) && !Whole(d, c, i))
  {
    if |d| == NOR_SIZE == |c| {
      SparedSlices(d, c);
      TornHeads(d, c, i);
      WholeSlices(d, c, i);
      hide Torn, Whole, Spared, Slice, Head;
    }
  }

  lemma SparedSlices(d: Bytes, c: Bytes)
    requires |c| == NOR_SIZE == |d|
    ensures Spared(d, c) <==>
              Slice(d, MTD0) == Slice(c, MTD0) && Slice(d, MTD4) == Slice(c, MTD4) && Slice(d, MTD5) == Slice(c, MTD5)
  {
    assert c[0xE40000..] == Slice(c, MTD4) + Slice(c, MTD5) && d[0xE40000..] == Slice(d, MTD4) + Slice(d, MTD5);
    assert c[..0x40000] == Slice(c, MTD0) && d[..0x40000] == Slice(d, MTD0);
    assert d[0xE40000..] == c[0xE40000..] ==>
             Slice(d, MTD4) == d[0xE40000..][..0x180000] && Slice(d, MTD5) == d[0xE40000..][0x180000..]
             && Slice(c, MTD4) == c[0xE40000..][..0x180000] && Slice(c, MTD5) == c[0xE40000..][0x180000..];
  }

  lemma TornHeads(d: Bytes, c: Bytes, i: RestoreImages)
    requires |c| == NOR_SIZE == |d|
    ensures Torn(d, c, i) <==>
              Head(Slice(d, MTD1)) != Head(Slice(c, MTD1)) && Head(Slice(d, MTD1)) != Head(i.mtd1)
    ensures Slice(d, MTD1) == Slice(c, MTD1) || Slice(d, MTD1) == i.mtd1 ==> !Torn(d, c, i)
  {
    HeadIsBlock(d);
    HeadIsBlock(c);
    var block := d[0x40000..0x50000];
    assert |block| == ERASE_BLOCK;
    if block <= i.mtd1 {
      assert i.mtd1[..ERASE_BLOCK] == block;
    }
    if block == Head(i.mtd1) {
      assert block <= i.mtd1;
    }
  }

  lemma WholeSlices(d: Bytes, c: Bytes, i: RestoreImages)
    requires |c| == NOR_SIZE == |d|
    ensures Whole(d, c, i) <==>
              || (Slice(d, MTD1) == Slice(c, MTD1) && Slice(d, MTD2) == Slice(c, MTD2))
              || (Slice(d, MTD1) == i.mtd1 && Slice(d, MTD2) == i.mtd2 && Slice(d, MTD3) == i.mtd3)
  {
    var x, y := d[0x40000..0x680000], c[0x40000..0x680000];
    assert x == Slice(d, MTD1) + Slice(d, MTD2) && y == Slice(c, MTD1) + Slice(c, MTD2);
    assert x == y ==> Slice(d, MTD1) == x[..0x1C0000] && Slice(c, MTD1) == y[..0x1C0000]
                      && Slice(d, MTD2) == x[0x1C0000..] && Slice(c, MTD2) == y[0x1C0000..];
  }

  /** One cut of a restore, classified against the chip before the run. */
  lemma ClassifyCut(c: Bytes, i: RestoreImages, e: Option<Event>, done: nat, d: Bytes)
    requires ValidRestore(i) && |c| == NOR_SIZE && Plan(NOR_SIZE, RestoreWrites(i)) && done <= 4
    requires CutAt(c, RestoreWrites(i), e, done, d)
    ensures Classify(d, c, i) != Stop
    ensures Classify(d, c, i) == Unviable ==> Concerns(e, StockActivation) && !PastLastPage(e, RestoreWrites(i)[3])
    ensures Concerns(e, StockMtd3) ==> Classify(d, c, i) == Survivor
    ensures PastLastPage(e, RestoreWrites(i)[3]) ==> Classify(d, c, i) == Survivor
    ensures |d| == NOR_SIZE && (Classify(d, c, i) == Unviable <==> Torn(d, c, i))
    ensures Classify(d, c, i) == Survivor <==> Whole(d, c, i)
  {
    VerdictExactly(d, c, i);
    hide Torn, Whole, Spared;
    RestoreCutPlaces(c, i, e, done, d);
    RestoreBaseKept(c, i);
    if done == 4 {
      CompleteSurvives(c, i);
    } else {
      RestoreCutSpares(c, i, e, done, d);
      hide Plan, Apply, CutAt, RestoreWrites, Concerns, PastLastPage, ValidRestore, Head, Slice;
      if Head(Slice(d, MTD1)) == Head(Slice(c, MTD1)) {
        NotUnviable(c, i, d);
      }
      NeverStop(c, i, d);
    }
  }

  lemma NeverStop(c: Bytes, i: RestoreImages, d: Bytes)
    requires |c| == NOR_SIZE == |d|
    requires Slice(d, MTD0) == Slice(c, MTD0) && Slice(d, MTD4) == Slice(c, MTD4) && Slice(d, MTD5) == Slice(c, MTD5)
    ensures Classify(d, c, i) != Stop
  {
  }

  /**
   * The classification is sound for every fault. A run is never told to stop; it is a survivor when the cut falls
   * in the user data, once the last activation page is in, and after every later cut; and it is unviable only inside
   * the erase and write of the activation block.
   */
  lemma ClassificationSound(sha: Hasher, m: Machine, i: RestoreImages)
    requires ValidRestore(i) && |m.chip.flash| == NOR_SIZE && m.Live() && m.phase == BACKUP_VALIDATED
    ensures var r := RestoreRun(sha, m, i);
            var e := m.chip.fault.failAt;
            var v := Classify(r.chip.flash, m.chip.flash, i);
            && v != Stop
            && (v == Unviable ==> Concerns(e, StockActivation) && !PastLastPage(e, RestoreWrites(i)[3]))
            && (Concerns(e, StockMtd3) ==> v == Survivor)
            && (PastLastPage(e, RestoreWrites(i)[3]) || RestoreAll(sha, m, i).Live() ==> v == Survivor)
            && |r.chip.flash| == NOR_SIZE && Spared(r.chip.flash, m.chip.flash)
            && (v == Unviable <==> Torn(r.chip.flash, m.chip.flash, i))
            && (v == Survivor <==> Whole(r.chip.flash, m.chip.flash, i))
  {
    VerdictExactly(RestoreRun(sha, m, i).chip.flash, m.chip.flash, i);
    hide Torn, Whole, Spared;
    assert |RestoreWrites(i)| == 4 && RestoreWrites(i)[..4] == RestoreWrites(i);
    hide ValidRestore, RestoreWrites, RestoreRun, RestoreAll, Concerns, PastLastPage, Classify, Protected;
    if Protected(i, m.chip.flash) {
      ClassifiedRun(sha, m, i);
    } else {
      RestoreRefuses(sha, m, i);
      OutsideMtd3(m.chip.flash, m.chip.flash, i);
    }
  }

  lemma ClassifiedRun(sha: Hasher, m: Machine, i: RestoreImages)
    requires ValidRestore(i) && |m.chip.flash| == NOR_SIZE && m.Live() && m.phase == BACKUP_VALIDATED
    requires Protected(i, m.chip.flash) && |RestoreWrites(i)| == 4 && RestoreWrites(i)[..4] == RestoreWrites(i)
    ensures var r := RestoreRun(sha, m, i);
            var e := m.chip.fault.failAt;
            var v := Classify(r.chip.flash, m.chip.flash, i);
            && v != Stop
            && (v == Unviable ==> Concerns(e, StockActivation) && !PastLastPage(e, RestoreWrites(i)[3]))
            && (Concerns(e, StockMtd3) ==> v == Survivor)
            && (PastLastPage(e, RestoreWrites(i)[3]) || RestoreAll(sha, m, i).Live() ==> v == Survivor)
  {
    hide Plan, Apply, CutAt, RestoreWrites, RestoreRun, RestoreAll, Concerns, PastLastPage, ValidRestore, Classify, Protected;
    RestoreRunCuts(sha, m, i);
    OnRestoreAll(sha, m, i);
    RestoreTailReads(sha, m, i);
    CompleteSurvives(m.chip.flash, i);
    var r := RestoreRun(sha, m, i);
    if !r.Live() {
      var done :| 0 <= done <= |RestoreWrites(i)|
                  && CutAt(m.chip.flash, RestoreWrites(i), m.chip.fault.failAt, done, r.chip.flash);
      ClassifyCut(m.chip.flash, i, m.chip.fault.failAt, done, r.chip.flash);
    }
  }

  /** A restore up to the moment mtd2 is about to be erased. */
  ghost function BeforeMtd2(sha: Hasher, m: Machine, i: RestoreImages): Machine
    requires ValidRestore(i)
  {
    PrepareRestore(m, i).FlashStep(sha, RestoreWrites(i)[0], MTD3_WRITTEN, MTD3_READBACK_VERIFIED)
  }

  lemma EnterKeeps(m: Machine, next: Phase)
    ensures m.Enter(next).chip.flash == m.chip.flash && m.Enter(next).chip.fault == m.chip.fault
  {
  }

  lemma PrepareKeeps(m: Machine, i: RestoreImages)
    requires ValidRestore(i)
    ensures PrepareRestore(m, i).chip.flash == m.chip.flash && PrepareRestore(m, i).chip.fault == m.chip.fault
  {
    hide ValidRestore, Machine.Enter;
    var m0 := VerifyProtected(m, i);
    EnterKeeps(m0, SAME_DEVICE_VERIFIED);
    EnterKeeps(m0.Enter(SAME_DEVICE_VERIFIED), RESTORE_IMAGES_VALIDATED);
    EnterKeeps(m0.Enter(SAME_DEVICE_VERIFIED).Enter(RESTORE_IMAGES_VALIDATED), RESTORE_PREPARED);
  }

  lemma StepSpares(sha: Hasher, m: Machine, w: RegionWrite, p: Phase, q: Phase)
    requires w.Valid(|m.chip.flash|)
    ensures AgreeOutside(m.chip.flash, m.FlashStep(sha, w, p, q).chip.flash, w.offset, w.End())
  {
    if m.Live() {
      RegionUnderFault(sha, m.chip, w);
    } else {
      HaltedStep(sha, m, w, p, q);
    }
    hide WriteAndVerify, Machine.Enter;
    EnterKeeps(m.Flash(sha, w), p);
    EnterKeeps(m.Flash(sha, w).Enter(p), q);
  }

  /** Power is cut at one of the events that come after the approach to mtd2 and before its first sector is erased. */
  ghost predicate BeforeRootErase(fault: Fault) {
    || fault.failAt == Some(BeforeErase(StockMtd2))
    || (fault.physical && fault.failAt == Some(BeforeEraseSector(StockMtd2, 0)))
  }

  /** Such a cut ends the step before anything is erased. */
  lemma NothingErased(sha: Hasher, m: Machine, i: RestoreImages)
    requires ValidRestore(i) && |m.chip.flash| == NOR_SIZE && m.Live() && BeforeRootErase(m.chip.fault)
    ensures var r := m.FlashStep(sha, RestoreWrites(i)[1], MTD2_WRITTEN, MTD2_READBACK_VERIFIED);
            !r.Live() && r.chip.flash == m.chip.flash
  {
    var w := RestoreWrites(i)[1];
    assert w.Valid(NOR_SIZE) && w.op == StockMtd2;
    hide ValidRestore, RestoreWrites;
    PutNothing(m.chip.flash, w.offset);
    CutAtErase(m.chip.fault, w.op, Sectors(w.span));
    assert m.Flash(sha, w) == m.(chip := m.chip.(outcome := PowerLoss));
    hide Machine.Flash, Machine.Enter;
    HaltedEnter(m.Flash(sha, w), MTD2_WRITTEN);
    HaltedEnter(m.Flash(sha, w), MTD2_READBACK_VERIFIED);
  }

  lemma CutAtErase(fault: Fault, op: Op, sectors: nat)
    requires sectors > 0 && op == StockMtd2 && BeforeRootErase(fault)
    ensures EraseCut(fault, op, sectors) == Some(0)
  {
  }

  lemma HaltedRestore(sha: Hasher, m: Machine, i: RestoreImages)
    requires ValidRestore(i) && |m.chip.flash| == NOR_SIZE
    requires !BeforeMtd2(sha, m, i).Live() || BeforeRootErase(m.chip.fault)
    ensures !RestoreAll(sha, m, i).Live() && RestoreAll(sha, m, i).chip.flash == BeforeMtd2(sha, m, i).chip.flash
  {
    var ws, early := RestoreWrites(i), BeforeMtd2(sha, m, i);
    var halted := early.FlashStep(sha, ws[1], MTD2_WRITTEN, MTD2_READBACK_VERIFIED);
    PrepareKeeps(m, i);
    StepKeeps(sha, PrepareRestore(m, i), ws[0], MTD3_WRITTEN, MTD3_READBACK_VERIFIED);
    hide ValidRestore, RestoreWrites, PrepareRestore, Machine.FlashStep, BeforeRootErase;
    if early.Live() {
      NothingErased(sha, early, i);
    } else {
      HaltedStep(sha, early, ws[1], MTD2_WRITTEN, MTD2_READBACK_VERIFIED);
    }
    HaltedStep(sha, halted, ws[2], MTD1_TAIL_WRITTEN, MTD1_TAIL_READBACK_VERIFIED);
    HaltedStep(sha, halted, ws[3], STOCK_ACTIVATION_WRITTEN, STOCK_ACTIVATION_READBACK_VERIFIED);
  }

  lemma StepKeeps(sha: Hasher, m: Machine, w: RegionWrite, p: Phase, q: Phase)
    ensures var r := m.FlashStep(sha, w, p, q); |r.chip.flash| == |m.chip.flash| && r.chip.fault == m.chip.fault
  {
    hide WriteAndVerify, Machine.Enter;
    EnterKeeps(m.Flash(sha, w), p);
    EnterKeeps(m.Flash(sha, w).Enter(p), q);
  }

  /** A restore that is cut, at whatever event, before the first sector of mtd2 is erased is a survivor. */
  lemma EarlyCutSurvives(sha: Hasher, m: Machine, i: RestoreImages)
    requires ValidRestore(i) && |m.chip.flash| == NOR_SIZE
    requires !BeforeMtd2(sha, m, i).Live() || BeforeRootErase(m.chip.fault)
    ensures Classify(RestoreRun(sha, m, i).chip.flash, m.chip.flash, i) == Survivor
  {
    var c, d, w := m.chip.flash, BeforeMtd2(sha, m, i).chip.flash, RestoreWrites(i)[0];
    HaltedRestore(sha, m, i);
    RestoreTailReads(sha, m, i);
    PrepareKeeps(m, i);
    RestorePlan(i);
    assert w.offset == MTD3.offset && w.span == MTD3.size && w.Valid(NOR_SIZE);
    hide ValidRestore, RestoreWrites, RestoreAll, RestoreRun, PrepareRestore, Machine.FlashStep, Classify, Plan, BeforeRootErase;
    StepSpares(sha, PrepareRestore(m, i), w, MTD3_WRITTEN, MTD3_READBACK_VERIFIED);
    OutsideMtd3(c, d, i);
  }

  lemma OutsideMtd3(c: Bytes, d: Bytes, i: RestoreImages)
    requires |c| == NOR_SIZE && AgreeOutside(c, d, MTD3.offset, MTD3.End())
    ensures Classify(d, c, i) == Survivor
  {
    assert Slice(d, MTD0) == Slice(c, MTD0) && Slice(d, MTD1) == Slice(c, MTD1) && Slice(d, MTD2) == Slice(c, MTD2);
    assert Slice(d, MTD4) == Slice(c, MTD4) && Slice(d, MTD5) == Slice(c, MTD5);
  }

  /* ---- A cut inside the activation write ---- */

  /** A cut between the regions: an event of one write leaves every other write complete. */
  lemma StepLives(sha: Hasher, m: Machine, w: RegionWrite, written: Phase, verified: Phase)
    requires m.Live() && w.Valid(|m.chip.flash|) && !Concerns(m.chip.fault.failAt, w.op)
    requires m.chip.fault.failAt == Some(AfterErase(StockActivation))
    requires Next(m.phase) == Some(written) && Next(written) == Some(verified)
    ensures var r := m.FlashStep(sha, w, written, verified);
            && r.Live() && r.phase == verified && r.chip.fault == m.chip.fault
            && r.chip.flash == Put(m.chip.flash, w.offset, Padded(w.payload, w.span))
  {
    RegionUnderFault(sha, m.chip, w);
    hide WriteAndVerify, Put, Padded, Next;
    var r := m.Flash(sha, w);
    assert r.Live() && r.phase == m.phase;
    EnterLives(r, written);
    EnterLives(r.Enter(written), verified);
  }

  lemma EnterLives(m: Machine, next: Phase)
    requires m.Live() && m.chip.fault.failAt == Some(AfterErase(StockActivation)) && Next(m.phase) == Some(next)
    ensures m.Enter(next) == m.(phase := next)
  {
  }

  lemma PreparedLives(m: Machine, i: RestoreImages)
    requires ValidRestore(i) && |m.chip.flash| == NOR_SIZE && m.Live() && m.phase == BACKUP_VALIDATED
    requires Protected(i, m.chip.flash) && m.chip.fault.failAt == Some(AfterErase(StockActivation))
    ensures PrepareRestore(m, i) == m.(phase := RESTORE_PREPARED)
  {
    assert VerifyProtected(m, i) == m;
    hide Machine.Enter, VerifyProtected;
    EnterLives(m, SAME_DEVICE_VERIFIED);
    EnterLives(m.(phase := SAME_DEVICE_VERIFIED), RESTORE_IMAGES_VALIDATED);
    EnterLives(m.(phase := RESTORE_IMAGES_VALIDATED), RESTORE_PREPARED);
  }

  /** The activation block erased, and power gone. */
  lemma ActivationErased(sha: Hasher, m: Machine, w: RegionWrite, written: Phase, verified: Phase)
    requires m.Live() && m.chip.fault.failAt == Some(AfterErase(StockActivation)) && w.op == StockActivation
    requires w.Valid(|m.chip.flash|)
    ensures m.FlashStep(sha, w, written, verified)
         == m.(chip := m.chip.(flash := Put(m.chip.flash, w.offset, Erased(w.span)), outcome := PowerLoss))
  {
    assert m.Flash(sha, w)
        == m.(chip := m.chip.(flash := Put(m.chip.flash, w.offset, Erased(w.span)), outcome := PowerLoss));
    hide Machine.Flash, Machine.Enter, Put;
    HaltedEnter(m.Flash(sha, w), written);
    HaltedEnter(m.Flash(sha, w), verified);
  }

  /** The first three writes of a restore that will be cut right after the activation block has been erased. */
  lemma BeforeActivation(sha: Hasher, m: Machine, i: RestoreImages) returns (m3: Machine)
    requires ValidRestore(i) && |m.chip.flash| == NOR_SIZE && m.Live() && m.phase == BACKUP_VALIDATED
    requires Protected(i, m.chip.flash) && m.chip.fault.failAt == Some(AfterErase(StockActivation))
    ensures m3.Live() && m3.chip.fault == m.chip.fault && |m3.chip.flash| == NOR_SIZE
    ensures RestoreAll(sha, m, i)
         == m3.FlashStep(sha, RestoreWrites(i)[3], STOCK_ACTIVATION_WRITTEN, STOCK_ACTIVATION_READBACK_VERIFIED)
  {
    var ws := RestoreWrites(i);
    RestorePlan(i);
    PreparedLives(m, i);
    assert ws[0].Valid(NOR_SIZE) && ws[1].Valid(NOR_SIZE) && ws[2].Valid(NOR_SIZE);
    assert ws[0].op == StockMtd3 && ws[1].op == StockMtd2 && ws[2].op == StockMtd1Tail;
    hide Plan, RestoreWrites, ValidRestore, PrepareRestore, Machine.FlashStep, Put, Padded, Protected;
    var m0 := PrepareRestore(m, i);
    StepLives(sha, m0, ws[0], MTD3_WRITTEN, MTD3_READBACK_VERIFIED);
    var m1 := m0.FlashStep(sha, ws[0], MTD3_WRITTEN, MTD3_READBACK_VERIFIED);
    StepLives(sha, m1, ws[1], MTD2_WRITTEN, MTD2_READBACK_VERIFIED);
    var m2 := m1.FlashStep(sha, ws[1], MTD2_WRITTEN, MTD2_READBACK_VERIFIED);
    StepLives(sha, m2, ws[2], MTD1_TAIL_WRITTEN, MTD1_TAIL_READBACK_VERIFIED);
    m3 := m2.FlashStep(sha, ws[2], MTD1_TAIL_WRITTEN, MTD1_TAIL_READBACK_VERIFIED);
  }

  /**
   * There are unviable cuts. A restore that loses power right after the erase of the activation block leaves that block
   * blank, which is unviable unless the block was or will be blank anyway.
   */
  lemma ErasedIsUnviable(sha: Hasher, m: Machine, i: RestoreImages)
    requires ValidRestore(i) && |m.chip.flash| == NOR_SIZE && m.Live() && m.phase == BACKUP_VALIDATED
    requires Protected(i, m.chip.flash) && m.chip.fault.failAt == Some(AfterErase(StockActivation))
    ensures var d := RestoreRun(sha, m, i).chip.flash;
            && |d| == NOR_SIZE && d[0x40000..0x50000] == Erased(0x10000)
            && (m.chip.flash[0x40000..0x50000] != Erased(0x10000) && i.mtd1[..0x10000] != Erased(0x10000) ==>
                  Classify(d, m.chip.flash, i) == Unviable)
  {
    var m3 := BeforeActivation(sha, m, i);
    var w := RestoreWrites(i)[3];
    assert w.op == StockActivation && w.offset == 0x40000 && w.span == 0x10000;
    RestorePlan(i);
    assert w.Valid(NOR_SIZE);
    ActivationErased(sha, m3, w, STOCK_ACTIVATION_WRITTEN, STOCK_ACTIVATION_READBACK_VERIFIED);
    RestoreTailReads(sha, m, i);
    var d := RestoreRun(sha, m, i).chip.flash;
    assert d == Put(m3.chip.flash, 0x40000, Erased(0x10000));
    PutReads(m3.chip.flash, 0x40000, Erased(0x10000));
    ClassificationSound(sha, m, i);
    hide Plan, RestoreWrites, ValidRestore, RestoreRun, RestoreAll, Machine.FlashStep, Put, Protected, Classify;
    VerdictExactly(d, m.chip.flash, i);
  }

  /* ---- Retrying a final install or a restore ---- */

  function FreshFinal(c: Bytes, fault: Fault): Machine {
    Machine(Chip(c, fault, Running), INSTALLER_BOOTED, None, None, None)
  }

  function FreshRestore(c: Bytes, fault: Fault): Machine {
    Machine(Chip(c, fault, Running), BACKUP_VALIDATED, None, None, None)
  }

  /** The chip after one attempt after another, each with a new installer and its own fault. */
  ghost function FinalAttempts(sha: Hasher, i: FinalImages, c: Bytes, faults: seq<Fault>): Bytes {
    if faults == [] then c
    else FinalRun(sha, FreshFinal(FinalAttempts(sha, i, c, faults[..|faults| - 1]), faults[|faults| - 1]), i).chip.flash
  }

  ghost function RestoreAttempts(sha: Hasher, i: RestoreImages, c: Bytes, faults: seq<Fault>): Bytes {
    if faults == [] then c
    else RestoreRun(sha, FreshRestore(RestoreAttempts(sha, i, c, faults[..|faults| - 1]), faults[|faults| - 1]), i).chip.flash
  }

  ghost predicate AgreesUntouched(ws: seq<RegionWrite>, c: Bytes, d: Bytes) {
    |d| == |c| && forall p :: 0 <= p < |c| && Untouched(ws, p) ==> d[p] == c[p]
  }

  lemma EndedAgrees(c: Bytes, ws: seq<RegionWrite>, phase: Phase, r: Machine)
    requires Plan(|c|, ws) && Ended(c, ws, phase, r)
    ensures AgreesUntouched(ws, c, r.chip.flash)
  {
    assert |r.chip.flash| == |c|;
    hide Plan, Ended, Untouched;
    forall p | 0 <= p < |c| && Untouched(ws, p) ensures r.chip.flash[p] == c[p] {
      EndedFrame(c, ws, phase, r, p);
    }
  }

  lemma {:induction false} FinalAttemptsAgree(sha: Hasher, i: FinalImages, c: Bytes, faults: seq<Fault>)
    requires ValidFinal(i) && |c| == NOR_SIZE
    ensures AgreesUntouched(FinalWrites(i), c, FinalAttempts(sha, i, c, faults))
  {
    if faults != [] {
      var init, last := faults[..|faults| - 1], faults[|faults| - 1];
      FinalAttemptsAgree(sha, i, c, init);
      var m := FreshFinal(FinalAttempts(sha, i, c, init), last);
      FinalRunCuts(sha, m, i);
      hide Plan, Ended, FinalRun, FinalWrites, Untouched;
      EndedAgrees(m.chip.flash, FinalWrites(i), FINAL_READBACK_VERIFIED, FinalRun(sha, m, i));
    }
  }

  lemma {:induction false} RestoreAttemptsAgree(sha: Hasher, i: RestoreImages, c: Bytes, faults: seq<Fault>)
    requires ValidRestore(i) && |c| == NOR_SIZE && Protected(i, c)
    ensures var d := RestoreAttempts(sha, i, c, faults);
            AgreesUntouched(RestoreWrites(i), c, d) && Protected(i, d)
  {
    if faults != [] {
      var init, last := faults[..|faults| - 1], faults[|faults| - 1];
      RestoreAttemptsAgree(sha, i, c, init);
      var m := FreshRestore(RestoreAttempts(sha, i, c, init), last);
      RestoreRunCuts(sha, m, i);
      RestoreIsSafe(sha, m, i);
      hide Plan, Ended, RestoreRun, RestoreWrites, Untouched, ActivationLastHolds;
      EndedAgrees(m.chip.flash, RestoreWrites(i), STOCK_RESTORE_COMPLETE, RestoreRun(sha, m, i));
    }
  }

  /** However often a final install has been cut, one uncut attempt leaves what a single uncut attempt would have. */
  lemma FinalConverges(sha: Hasher, i: FinalImages, c: Bytes, faults: seq<Fault>, last: Fault)
    requires ValidFinal(i) && |c| == NOR_SIZE && last.failAt == None
    ensures Plan(NOR_SIZE, FinalWrites(i))
    ensures var r := FinalRun(sha, FreshFinal(FinalAttempts(sha, i, c, faults), last), i);
            r.Live() && r.phase == FINAL_READBACK_VERIFIED && r.chip.flash == Apply(c, FinalWrites(i))
  {
    FinalAttemptsAgree(sha, i, c, faults);
    var m := FreshFinal(FinalAttempts(sha, i, c, faults), last);
    FinalRunCuts(sha, m, i);
    hide Plan, Apply, FinalRun, FinalWrites, Untouched;
    RetryConverges(c, FinalWrites(i), m.chip.flash);
  }

  /** However often a restore has been cut, one uncut attempt completes it, and leaves exactly the stock images. */
  lemma RestoreConverges(sha: Hasher, i: RestoreImages, c: Bytes, faults: seq<Fault>, last: Fault)
    requires ValidRestore(i) && |c| == NOR_SIZE && Protected(i, c) && last.failAt == None
    ensures var r := RestoreRun(sha, FreshRestore(RestoreAttempts(sha, i, c, faults), last), i);
            && r.Live() && r.phase == STOCK_RESTORE_COMPLETE && |r.chip.flash| == NOR_SIZE && Protected(i, r.chip.flash)
            && r.Content(MTD1) == i.mtd1 && r.Content(MTD2) == i.mtd2 && r.Content(MTD3) == i.mtd3
  {
    RestoreAttemptsAgree(sha, i, c, faults);
    var m := FreshRestore(RestoreAttempts(sha, i, c, faults), last);
    RestoreRunCuts(sha, m, i);
    RestoredChip(m.chip.flash, i);
    hide Plan, Apply, RestoreRun, RestoreWrites, Untouched;
  }

  /** A failed installer is terminal: running it again fails before the first erase. */
  lemma FailureIsTerminal(sha: Hasher, m: Machine, i: FinalImages)
    requires m.Live() && (m.phase == FailedPowerLoss || m.phase == FailedWriteOrStateGate)
    ensures var r := FinalRun(sha, m, i); !r.Live() && r.chip.flash == m.chip.flash && r.phase == m.phase
  {
    var halted := m.Enter(DEVICE_VERIFIED);
    assert !halted.Live() && halted.PassGates() == halted;
    if ValidFinal(i) {
      assert FinalWrite(sha, halted, i) == halted;
    }
  }

  /** Without a cut a state is entered exactly from the one before it; the last state of each machine leads nowhere. */
  lemma TransitionsExactly(m: Machine, next: Phase)
    requires m.Live() && m.chip.fault.failAt == None
    ensures var r := m.Enter(next);
            && (r.Live() <==>
                  || (exists k: nat :: k < 17 && m.phase == Install(k) && next == Install(k + 1))
                  || (exists k: nat :: k < 13 && m.phase == Restore(k) && next == Restore(k + 1)))
            && (r.Live() ==> r == m.(phase := next))
            && (!r.Live() ==> r == m.(chip := m.chip.(outcome := Failed(InvalidTransition))))
  {
    if m.Enter(next).Live() {
      if m.phase.Install? {
        assert m.phase.step < 17 && m.phase == Install(m.phase.step) && next == Install(m.phase.step + 1);
      } else {
        assert m.phase.step < 13 && m.phase == Restore(m.phase.step) && next == Restore(m.phase.step + 1);
      }
    }
  }
}
