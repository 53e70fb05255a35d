/** What every run of the three installers keeps, wherever it is cut and however often it is retried. */
module FlashSafety {
  import opened Common
  import opened Layout
  import opened Nor
  import opened Flashing
  import opened Installers
  import RecoveryCheckpoint

  lemma BlocksAreSectors(n: int)
    requires n % ERASE_BLOCK == 0
    ensures WholeSectors(n)
  {
  }

  lemma PartitionsAreSectors()
    ensures WholeSectors(MTD1.offset) && WholeSectors(ERASE_BLOCK) && WholeSectors(MTD1.offset + ERASE_BLOCK)
    ensures WholeSectors(MTD1.size - ERASE_BLOCK) && WholeSectors(MTD2.offset) && WholeSectors(MTD2.size)
    ensures WholeSectors(MTD3.offset) && WholeSectors(MTD3.size)
  {
  }

  lemma FinalPlan(i: FinalImages)
    requires ValidFinal(i)
    ensures Plan(NOR_SIZE, FinalWrites(i))
  {
    PartitionsAreSectors();
    BlocksAreSectors(i.dataOffset);
    BlocksAreSectors(i.dataSpan);
    BlocksAreSectors(i.systemOffset);
    BlocksAreSectors(i.systemSpan);
    hide WholeSectors;
  }

  lemma Stage2Plan(i: Stage2Images)
    requires ValidStage2(i)
    ensures Plan(NOR_SIZE, Stage2Writes(i))
  {
    PartitionsAreSectors();
    BlocksAreSectors(i.dataOffset);
    BlocksAreSectors(i.dataSpan);
    BlocksAreSectors(i.systemOffset);
    BlocksAreSectors(i.systemSpan);
    hide WholeSectors;
  }

  lemma RestorePlan(i: RestoreImages)
    requires ValidRestore(i)
    ensures Plan(NOR_SIZE, RestoreWrites(i))
  {
    PartitionsAreSectors();
    hide WholeSectors;
  }

  /* ---- Following a run step by step ---- */

  /** `done` writes of the plan lie behind machine m, which is in `phase` unless power was lost. */
  ghost predicate On(c: Bytes, ws: seq<RegionWrite>, done: nat, phase: Phase, m: Machine)
    requires Plan(|c|, ws)
  {
    && Tracks(c, ws, done, m.chip)
    && (m.Live() ==> m.phase == phase)
    && !m.phase.FailedPowerLoss? && !m.phase.FailedWriteOrStateGate?
  }

  /** Same fault, and the same things on the SD card. */
  ghost predicate SameCard(m: Machine, r: Machine) {
    r.chip.fault == m.chip.fault && r.backup == m.backup && r.status == m.status && r.checkpoint == m.checkpoint
  }

  lemma OnReach(c: Bytes, ws: seq<RegionWrite>, done: nat, phase: Phase, m: Machine, e: Event)
    requires Plan(|c|, ws) && On(c, ws, done, phase, m) && Elsewhere(Some(e), ws)
    ensures On(c, ws, done, phase, m.Reach(e)) && SameCard(m, m.Reach(e))
  {
    hide Plan, Tracks;
    TracksMark(c, ws, done, m.chip, e);
  }

  lemma OnEnter(c: Bytes, ws: seq<RegionWrite>, done: nat, phase: Phase, m: Machine, next: Phase)
    requires Plan(|c|, ws) && On(c, ws, done, phase, m) && Next(phase) == Some(next)
    ensures On(c, ws, done, next, m.Enter(next)) && SameCard(m, m.Enter(next))
  {
    OnReach(c, ws, done, phase, m, BeforeState(next));
    var r := m.Reach(BeforeState(next));
    hide Plan, Tracks;
    if r.Live() {
      OnReach(c, ws, done, next, m.(phase := next), AfterState(next));
    }
  }

  lemma OnFlash(sha: Hasher, c: Bytes, ws: seq<RegionWrite>, done: nat, phase: Phase, m: Machine)
    requires Plan(|c|, ws) && On(c, ws, done, phase, m) && done < |ws|
    ensures On(c, ws, done + 1, phase, m.Flash(sha, ws[done])) && SameCard(m, m.Flash(sha, ws[done]))
  {
    assert m.Live() || m.Flash(sha, ws[done]) == m;
    hide Plan, Tracks, WriteAndVerify;
    TracksWrite(sha, c, ws, done, m.chip);
  }

  lemma OnRead(c: Bytes, ws: seq<RegionWrite>, done: nat, phase: Phase, m: Machine, p: Partition, op: Op)
    requires Plan(|c|, ws) && On(c, ws, done, phase, m) && p.End() <= |c|
    requires forall j :: 0 <= j < |ws| ==> ws[j].op != op
    ensures On(c, ws, done, phase, m.Read(p, op)) && SameCard(m, m.Read(p, op))
  {
    hide Plan, Apply, CutState;
    TracksReadback(c, ws, done, m.chip, p, op);
  }

  lemma OnGates(c: Bytes, ws: seq<RegionWrite>, m: Machine)
    requires Plan(|c|, ws) && On(c, ws, 0, DEVICE_VERIFIED, m)
    ensures On(c, ws, 0, RAM_RESIDENT_INSTALL_MODE, m.PassGates()) && SameCard(m, m.PassGates())
  {
    hide Plan, On, Machine.Enter;
    OnEnter(c, ws, 0, DEVICE_VERIFIED, m, STOCK_BACKUP_COMPLETE);
    var m1 := m.Enter(STOCK_BACKUP_COMPLETE);
    OnEnter(c, ws, 0, STOCK_BACKUP_COMPLETE, m1, STOCK_BACKUP_VERIFIED);
    var m2 := m1.Enter(STOCK_BACKUP_VERIFIED);
    OnEnter(c, ws, 0, STOCK_BACKUP_VERIFIED, m2, RECOVERY_CHECKPOINT_VERIFIED);
    var m3 := m2.Enter(RECOVERY_CHECKPOINT_VERIFIED);
    OnEnter(c, ws, 0, RECOVERY_CHECKPOINT_VERIFIED, m3, FINAL_BUNDLE_VERIFIED);
    var m4 := m3.Enter(FINAL_BUNDLE_VERIFIED);
    OnEnter(c, ws, 0, FINAL_BUNDLE_VERIFIED, m4, RAM_RESIDENT_INSTALL_MODE);
  }

  /** The last two writes of a plan, and the transitions after them. */
  lemma OnFlashKernel(sha: Hasher, c: Bytes, ws: seq<RegionWrite>, m: Machine)
    requires Plan(|c|, ws) && |ws| >= 2 && On(c, ws, |ws| - 2, FINAL_ROOTFS_WRITTEN, m)
    ensures var r := m.FlashKernel(sha, ws[|ws| - 2], ws[|ws| - 1]);
            On(c, ws, |ws|, ACTIVATION_WRITTEN, r) && SameCard(m, r)
  {
    hide Plan, On, Machine.Enter, Machine.Flash;
    OnFlash(sha, c, ws, |ws| - 2, FINAL_ROOTFS_WRITTEN, m);
    var m1 := m.Flash(sha, ws[|ws| - 2]);
    OnEnter(c, ws, |ws| - 1, FINAL_ROOTFS_WRITTEN, m1, FINAL_KERNEL_WRITTEN);
    var m2 := m1.Enter(FINAL_KERNEL_WRITTEN);
    OnFlash(sha, c, ws, |ws| - 1, FINAL_KERNEL_WRITTEN, m2);
    var m3 := m2.Flash(sha, ws[|ws| - 1]);
    OnEnter(c, ws, |ws|, FINAL_KERNEL_WRITTEN, m3, ACTIVATION_WRITTEN);
  }

  /** The tail and the activation block together are the whole kernel partition. */
  lemma KernelWhole(kernel: Bytes, d: Bytes, tail: RegionWrite, block: RegionWrite)
    requires ERASE_BLOCK < |kernel| <= MTD1.size && |d| == NOR_SIZE
    requires tail == KernelTail(kernel, tail.op) && block == ActivationBlock(kernel, block.op)
    requires d[tail.offset..tail.End()] == Padded(tail.payload, tail.span)
    requires d[block.offset..block.End()] == Padded(block.payload, block.span)
    ensures d[MTD1.offset..MTD1.End()] == Padded(kernel, MTD1.size)
  {
    assert d[MTD1.offset..MTD1.End()] == d[block.offset..block.End()] + d[tail.offset..tail.End()];
    assert kernel == kernel[..ERASE_BLOCK] + kernel[ERASE_BLOCK..];
  }

  /** The closing comparison of the whole kernel partition succeeds. */
  lemma OnKernelReadback(sha: Hasher, c: Bytes, ws: seq<RegionWrite>, phase: Phase, m: Machine, kernel: Bytes)
    requires |c| == NOR_SIZE && Plan(|c|, ws) && On(c, ws, |ws|, phase, m) && |ws| >= 2
    requires ERASE_BLOCK < |kernel| <= MTD1.size && (forall j :: 0 <= j < |ws| ==> ws[j].op != FinalKernel)
    requires ws[|ws| - 2] == KernelTail(kernel, ws[|ws| - 2].op) && ws[|ws| - 1] == ActivationBlock(kernel, ws[|ws| - 1].op)
    ensures var r := m.ReadAndVerify(sha, MTD1, FinalKernel, Padded(kernel, MTD1.size));
            On(c, ws, |ws|, phase, r) && SameCard(m, r)
  {
    OnRead(c, ws, |ws|, phase, m, MTD1, FinalKernel);
    if m.Live() {
      assert ws[..|ws|] == ws;
      AppliedRegion(c, ws, |ws| - 2);
      AppliedRegion(c, ws, |ws| - 1);
      hide Plan;
      KernelWhole(kernel, m.chip.flash, ws[|ws| - 2], ws[|ws| - 1]);
    }
  }

  /** How a run ends: complete in `phase`, or cut somewhere in its plan. Never with an error. */
  ghost predicate Ended(c: Bytes, ws: seq<RegionWrite>, phase: Phase, r: Machine)
    requires Plan(|c|, ws)
  {
    if r.Live() then r.phase == phase && r.chip.flash == Apply(c, ws)
    else r.chip.outcome == PowerLoss && r.phase == FailedPowerLoss && r.chip.fault.failAt.Some? &&
         CutState(c, ws, r.chip.fault.failAt, r.chip.flash)
  }

  lemma OnSettle(c: Bytes, ws: seq<RegionWrite>, phase: Phase, m: Machine)
    requires Plan(|c|, ws) && On(c, ws, |ws|, phase, m)
    ensures Ended(c, ws, phase, m.Settle()) && SameCard(m, m.Settle())
  {
    assert ws[..|ws|] == ws;
  }

  /* ---- One run ---- */

  lemma FinalCount(i: FinalImages)
    requires ValidFinal(i)
    ensures |FinalWrites(i)| == 5
  {
  }

  lemma OnFinalWrite(sha: Hasher, c: Bytes, m: Machine, i: FinalImages)
    requires ValidFinal(i) && Plan(|c|, FinalWrites(i)) && On(c, FinalWrites(i), 0, RAM_RESIDENT_INSTALL_MODE, m)
    ensures On(c, FinalWrites(i), 5, ACTIVATION_WRITTEN, FinalWrite(sha, m, i)) && SameCard(m, FinalWrite(sha, m, i))
  {
    hide Plan, On, FinalWrites, Machine.Enter, Machine.Flash, Machine.FlashKernel, ValidFinal;
    var ws := FinalWrites(i);
    FinalCount(i);
    OnFlash(sha, c, ws, 0, RAM_RESIDENT_INSTALL_MODE, m);
    var m2 := m.Flash(sha, ws[0]);
    OnFlash(sha, c, ws, 1, RAM_RESIDENT_INSTALL_MODE, m2);
    var m3 := m2.Flash(sha, ws[1]);
    OnEnter(c, ws, 2, RAM_RESIDENT_INSTALL_MODE, m3, FINAL_DATA_WRITTEN);
    var m4 := m3.Enter(FINAL_DATA_WRITTEN);
    OnFlash(sha, c, ws, 2, FINAL_DATA_WRITTEN, m4);
    var m5 := m4.Flash(sha, ws[2]);
    OnEnter(c, ws, 3, FINAL_DATA_WRITTEN, m5, FINAL_ROOTFS_WRITTEN);
    OnFlashKernel(sha, c, ws, m5.Enter(FINAL_ROOTFS_WRITTEN));
  }

  /**
   * FinalInstaller, any fault: either it finishes with every region final, or power was lost
   * and the chip is in a cut state of its plan; no MTD or state error is ever raised.
   */
  lemma FinalRunCuts(sha: Hasher, m: Machine, i: FinalImages)
    requires ValidFinal(i) && |m.chip.flash| == NOR_SIZE && m.Live() && m.phase == INSTALLER_BOOTED
    ensures Plan(NOR_SIZE, FinalWrites(i))
    ensures var r := FinalRun(sha, m, i);
            SameCard(m, r) && Ended(m.chip.flash, FinalWrites(i), FINAL_READBACK_VERIFIED, r)
  {
    FinalPlan(i);
    var c, ws := m.chip.flash, FinalWrites(i);
    assert On(c, ws, 0, INSTALLER_BOOTED, m);
    OnEnter(c, ws, 0, INSTALLER_BOOTED, m, DEVICE_VERIFIED);
    hide Plan, On, Machine.Enter, Machine.ReadAndVerify, Machine.PassGates, FinalWrite;
    OnGates(c, ws, m.Enter(DEVICE_VERIFIED));
    OnFinalWrite(sha, c, m.Enter(DEVICE_VERIFIED).PassGates(), i);
    var m7 := FinalWrite(sha, m.Enter(DEVICE_VERIFIED).PassGates(), i);
    OnKernelReadback(sha, c, ws, ACTIVATION_WRITTEN, m7, i.kernel);
    var m8 := m7.ReadAndVerify(sha, MTD1, FinalKernel, Padded(i.kernel, MTD1.size));
    OnEnter(c, ws, 5, ACTIVATION_WRITTEN, m8, FINAL_READBACK_VERIFIED);
    OnSettle(c, ws, FINAL_READBACK_VERIFIED, m8.Enter(FINAL_READBACK_VERIFIED));
  }

  /* ---- Stage 2: the backup and its checkpoint come before the first erase ---- */

  /** Exactly the condition under which stage 2 goes on to write: see Stage2SucceedsExactly. */
  predicate Recoverable(sha: Hasher, i: Stage2Images, flash: Bytes, backup: Option<Bytes>, checkpoint: Option<Bytes>)
    requires ValidStage2(i) && |flash| == NOR_SIZE
  {
    i.mode == Initialize && backup.Some? ==>
      && |backup.value| == MTD3.size
      && (flash[MTD3.offset..MTD3.End()] == backup.value || checkpoint == Some(ExpectedRecord(sha, i, backup.value)))
  }

  /** What securing the backup may do to the card: take a missing backup, refresh the checkpoint of an untouched mtd3. */
  ghost predicate CardStep(sha: Hasher, i: Stage2Images, flash: Bytes, m: Machine, r: Machine)
    requires ValidStage2(i) && |flash| == NOR_SIZE
  {
    var stock := flash[MTD3.offset..MTD3.End()];
    && (r.backup == m.backup || (i.mode == Initialize && m.backup.None? && r.backup == Some(stock)))
    && (r.checkpoint == m.checkpoint ||
        (i.mode == Initialize && r.backup == Some(stock) && r.checkpoint == Some(ExpectedRecord(sha, i, stock))))
  }

  ghost predicate Secured(sha: Hasher, i: Stage2Images, m: Machine)
    requires ValidStage2(i)
  {
    i.mode == Initialize ==>
      m.backup.Some? && |m.backup.value| == MTD3.size && m.checkpoint == Some(ExpectedRecord(sha, i, m.backup.value))
  }

  lemma CardStepSame(sha: Hasher, i: Stage2Images, flash: Bytes, m: Machine, m': Machine, r: Machine, r': Machine)
    requires ValidStage2(i) && |flash| == NOR_SIZE && SameCard(m, m') && SameCard(r, r') && CardStep(sha, i, flash, m', r)
    ensures CardStep(sha, i, flash, m, r')
    ensures Secured(sha, i, r) ==> Secured(sha, i, r')
  {
  }

  lemma SecureBackupStep(sha: Hasher, m: Machine, i: Stage2Images)
    requires ValidStage2(i) && |m.chip.flash| == NOR_SIZE && m.Live()
    ensures var r := SecureBackup(sha, m, i);
            && r.chip.fault == m.chip.fault && r.phase == m.phase && r.chip.flash == m.chip.flash
            && CardStep(sha, i, m.chip.flash, m, r)
            && (Recoverable(sha, i, m.chip.flash, m.backup, m.checkpoint) ==> r.Live() || r.chip.outcome == PowerLoss)
            && (!Recoverable(sha, i, m.chip.flash, m.backup, m.checkpoint) ==> !r.Live())
            && (r.Live() ==> Secured(sha, i, r))
            && (r.chip.outcome == PowerLoss ==> m.chip.fault.failAt.Some? && Elsewhere(m.chip.fault.failAt, Stage2Writes(i)))
  {
    hide RecoveryCheckpoint.Record, ValidStage2, Stage2Writes, Elsewhere;
    SecuringElsewhere(i);
  }

  /** Nothing that secures the backup shares an event with a write of the plan. */
  lemma SecuringElsewhere(i: Stage2Images)
    requires ValidStage2(i)
    ensures i.mode != UnknownMode
    ensures var ws := Stage2Writes(i);
            && Elsewhere(Some(BeforeReadback(UserdataBackup)), ws) && Elsewhere(Some(AfterReadback(UserdataBackup)), ws)
            && Elsewhere(Some(BeforeReadback(UserdataBackupVerify)), ws)
            && Elsewhere(Some(AfterReadback(UserdataBackupVerify)), ws)
            && Elsewhere(Some(BeforeWriteCheckpoint), ws) && Elsewhere(Some(AfterWriteCheckpoint), ws)
            && Elsewhere(Some(BeforeReadCheckpoint), ws) && Elsewhere(Some(AfterReadCheckpoint), ws)
  {
  }

  lemma OnSecureBackup(sha: Hasher, c: Bytes, ws: seq<RegionWrite>, m: Machine, i: Stage2Images)
    requires ValidStage2(i) && |c| == NOR_SIZE && Plan(|c|, ws) && On(c, ws, 0, DEVICE_VERIFIED, m) && ws == Stage2Writes(i)
    requires m.Live() ==> Recoverable(sha, i, c, m.backup, m.checkpoint)
    ensures var r := SecureBackup(sha, m, i);
            && On(c, ws, 0, DEVICE_VERIFIED, r) && r.chip.fault == m.chip.fault
            && CardStep(sha, i, c, m, r)
            && (r.Live() ==> Secured(sha, i, r))
  {
    if m.Live() {
      SecureBackupStep(sha, m, i);
      var r := SecureBackup(sha, m, i);
      hide SecureBackup;
      if r.chip.outcome == PowerLoss { assert CutAt(c, ws, m.chip.fault.failAt, 0, m.chip.flash); }
    }
  }

  /** Where the data region lies, and how many writes there are with it and without. */
  lemma DataRegion(i: Stage2Images)
    requires ValidStage2(i)
    ensures 0 <= i.dataOffset && 0 < i.dataSpan && Partition(i.dataOffset, i.dataSpan).End() <= NOR_SIZE
    ensures |Stage2Writes(i)| == if i.mode == Preserve then 3 else 4
    ensures forall w <- Stage2Writes(i) :: w.op != DataBefore && w.op != DataPreserved
  {
  }

  lemma OnSettleData(sha: Hasher, c: Bytes, m: Machine, i: Stage2Images)
    requires ValidStage2(i) && |c| == NOR_SIZE && Plan(|c|, Stage2Writes(i))
    requires On(c, Stage2Writes(i), 0, RAM_RESIDENT_INSTALL_MODE, m)
    ensures var ws := Stage2Writes(i);
            On(c, ws, |ws| - 3, RAM_RESIDENT_INSTALL_MODE, SettleData(sha, m, i)) && SameCard(m, SettleData(sha, m, i))
  {
    hide Plan, On, ValidStage2, Stage2Writes, Machine.Flash;
    var ws := Stage2Writes(i);
    DataRegion(i);
    var region := Partition(i.dataOffset, i.dataSpan);
    OnRead(c, ws, 0, RAM_RESIDENT_INSTALL_MODE, m, region, DataBefore);
    var before := m.Read(region, DataBefore);
    if i.mode == Preserve {
      OnRead(c, ws, 0, RAM_RESIDENT_INSTALL_MODE, before, region, DataPreserved);
    } else {
      OnFlash(sha, c, ws, 0, RAM_RESIDENT_INSTALL_MODE, before);
    }
  }

  lemma OnExpectMtd2(c: Bytes, ws: seq<RegionWrite>, phase: Phase, m: Machine, expected: Bytes)
    requires |c| == NOR_SIZE && Plan(|c|, ws) && On(c, ws, |ws|, phase, m) && expected == c[MTD2.offset..MTD2.End()]
    requires forall j :: 0 <= j < |ws| ==> ws[j].End() <= MTD2.offset || MTD2.End() <= ws[j].offset
    ensures m.Live() ==> m.Expect(MTD2, expected, Mtd2Changed) == m
  {
    if m.Live() {
      assert ws[..|ws|] == ws;
      forall p: nat | MTD2.offset <= p < MTD2.End() ensures m.chip.flash[p] == c[p] {
        AppliedOutside(c, ws, p);
      }
    }
  }

  lemma HaltedStage2(sha: Hasher, mtd2: Bytes, m: Machine, i: Stage2Images)
    requires ValidStage2(i) && !m.Live()
    ensures m.PassGates() == m && Stage2Write(sha, mtd2, m, i) == m
  {
  }

  lemma OnStage2Finish(sha: Hasher, c: Bytes, m: Machine, i: Stage2Images)
    requires ValidStage2(i) && |c| == NOR_SIZE && Plan(|c|, Stage2Writes(i))
    requires On(c, Stage2Writes(i), |Stage2Writes(i)|, ACTIVATION_WRITTEN, m)
    ensures var r := m.ReadAndVerify(sha, MTD1, FinalKernel, Padded(i.kernel, MTD1.size))
                      .Expect(MTD2, c[MTD2.offset..MTD2.End()], Mtd2Changed).Enter(FINAL_READBACK_VERIFIED);
            On(c, Stage2Writes(i), |Stage2Writes(i)|, FINAL_READBACK_VERIFIED, r) && SameCard(m, r)
  {
    var ws := Stage2Writes(i);
    OnKernelReadback(sha, c, ws, ACTIVATION_WRITTEN, m, i.kernel);
    var m9 := m.ReadAndVerify(sha, MTD1, FinalKernel, Padded(i.kernel, MTD1.size));
    hide Plan, On, Apply, Machine.ReadAndVerify;
    OnExpectMtd2(c, ws, ACTIVATION_WRITTEN, m9, c[MTD2.offset..MTD2.End()]);
    OnEnter(c, ws, |ws|, ACTIVATION_WRITTEN, m9, FINAL_READBACK_VERIFIED);
  }

  lemma Stage2Count(i: Stage2Images)
    requires ValidStage2(i)
    ensures |Stage2Writes(i)| >= 3
  {
  }

  lemma OnStage2Write(sha: Hasher, c: Bytes, m: Machine, i: Stage2Images)
    requires ValidStage2(i) && |c| == NOR_SIZE && Plan(|c|, Stage2Writes(i))
    requires On(c, Stage2Writes(i), 0, RAM_RESIDENT_INSTALL_MODE, m)
    ensures var r := Stage2Write(sha, c[MTD2.offset..MTD2.End()], m, i);
            On(c, Stage2Writes(i), |Stage2Writes(i)|, FINAL_READBACK_VERIFIED, r) && SameCard(m, r)
  {
    hide Plan, On, Apply, Machine.Enter, Machine.Flash, Machine.ReadAndVerify, Machine.FlashKernel, SettleData,
         ValidStage2, Stage2Writes;
    var ws := Stage2Writes(i);
    Stage2Count(i);
    OnSettleData(sha, c, m, i);
    var m4 := SettleData(sha, m, i);
    OnEnter(c, ws, |ws| - 3, RAM_RESIDENT_INSTALL_MODE, m4, FINAL_DATA_WRITTEN);
    var m5 := m4.Enter(FINAL_DATA_WRITTEN);
    OnFlash(sha, c, ws, |ws| - 3, FINAL_DATA_WRITTEN, m5);
    var m6 := m5.Flash(sha, ws[|ws| - 3]);
    OnEnter(c, ws, |ws| - 2, FINAL_DATA_WRITTEN, m6, FINAL_ROOTFS_WRITTEN);
    var m7 := m6.Enter(FINAL_ROOTFS_WRITTEN);
    OnFlashKernel(sha, c, ws, m7);
    OnStage2Finish(sha, c, m7.FlashKernel(sha, ws[|ws| - 2], ws[|ws| - 1]), i);
  }

  /** Stage 2 from a recoverable card, any fault: it ends or is cut in its plan, and the card only gains what it needs. */
  lemma Stage2RunCuts(sha: Hasher, m: Machine, i: Stage2Images)
    requires ValidStage2(i) && |m.chip.flash| == NOR_SIZE && m.Live() && m.phase == INSTALLER_BOOTED
    requires Recoverable(sha, i, m.chip.flash, m.backup, m.checkpoint)
    ensures Plan(NOR_SIZE, Stage2Writes(i))
    ensures var r := Stage2Run(sha, m, i);
            && r.chip.fault == m.chip.fault
            && Ended(m.chip.flash, Stage2Writes(i), FINAL_READBACK_VERIFIED, r)
            && CardStep(sha, i, m.chip.flash, m, r)
            && (r.Live() || r.chip.flash != m.chip.flash ==> Secured(sha, i, r))
  {
    Stage2Plan(i);
    var c, ws := m.chip.flash, Stage2Writes(i);
    assert On(c, ws, 0, INSTALLER_BOOTED, m);
    OnEnter(c, ws, 0, INSTALLER_BOOTED, m, DEVICE_VERIFIED);
    var m1 := m.Enter(DEVICE_VERIFIED);
    assert m1.chip.flash == c;
    OnSecureBackup(sha, c, ws, m1, i);
    var m2 := SecureBackup(sha, m1, i);
    assert m2.chip.flash == c by { if m1.Live() { SecureBackupStep(sha, m1, i); } }
    hide Plan, On, CardStep, Secured, Recoverable, Machine.Enter, SecureBackup, Machine.PassGates, Stage2Write;
    OnGates(c, ws, m2);
    OnStage2Write(sha, c, m2.PassGates(), i);
    var m3 := Stage2Write(sha, c[MTD2.offset..MTD2.End()], m2.PassGates(), i);
    OnSettle(c, ws, FINAL_READBACK_VERIFIED, m3);
    if !m2.Live() {
      HaltedStage2(sha, c[MTD2.offset..MTD2.End()], m2, i);
    }
    CardStepSame(sha, i, c, m, m1, m2, m3.Settle());
  }

  lemma EndedSize(c: Bytes, ws: seq<RegionWrite>, phase: Phase, r: Machine)
    requires Plan(|c|, ws) && Ended(c, ws, phase, r)
    ensures |r.chip.flash| == |c|
  {
    hide Plan;
  }

  /** No run moves a byte outside the regions of its plan. */
  lemma EndedFrame(c: Bytes, ws: seq<RegionWrite>, phase: Phase, r: Machine, p: nat)
    requires Plan(|c|, ws) && Ended(c, ws, phase, r) && p < |c| && Untouched(ws, p)
    ensures |r.chip.flash| == |c| && r.chip.flash[p] == c[p]
  {
    if r.Live() {
      AppliedOutside(c, ws, p);
    } else {
      CutFrame(c, ws, r.chip.fault.failAt, r.chip.flash, p);
    }
  }

  lemma Stage2Refuses(sha: Hasher, m: Machine, i: Stage2Images)
    requires ValidStage2(i) && |m.chip.flash| == NOR_SIZE && m.Live() && m.phase == INSTALLER_BOOTED
    requires !Recoverable(sha, i, m.chip.flash, m.backup, m.checkpoint)
    ensures var r := Stage2Run(sha, m, i);
            && !r.Live() && r.chip.flash == m.chip.flash && r.backup == m.backup && r.checkpoint == m.checkpoint
            && r.phase == (if r.chip.outcome == PowerLoss then FailedPowerLoss else FailedWriteOrStateGate)
            && (m.chip.fault.failAt == None ==> r.chip.outcome in {Failed(BackupSizeMismatch), Failed(CheckpointMismatch)})
  {
    var m1 := m.Enter(DEVICE_VERIFIED);
    if m1.Live() {
      RefusedBackup(sha, m1, i);
    }
    hide SecureBackup, Stage2Write, Recoverable;
    HaltedStage2(sha, m.Content(MTD2), SecureBackup(sha, m1, i), i);
  }

  lemma RefusedBackup(sha: Hasher, m: Machine, i: Stage2Images)
    requires ValidStage2(i) && |m.chip.flash| == NOR_SIZE && m.Live()
    requires !Recoverable(sha, i, m.chip.flash, m.backup, m.checkpoint)
    ensures var r := SecureBackup(sha, m, i);
            && !r.Live() && r.chip.flash == m.chip.flash && r.backup == m.backup && r.checkpoint == m.checkpoint
            && r.phase == m.phase
            && (m.chip.fault.failAt == None ==> r.chip.outcome in {Failed(BackupSizeMismatch), Failed(CheckpointMismatch)})
  {
    hide RecoveryCheckpoint.Record;
  }

  /**
   * When an uncut stage-2 run succeeds: exactly when the images are valid and, in initialize mode, there is no
   * backup yet or a full-size one that matches mtd3 or is vouched for by the checkpoint. Otherwise the run leaves
   * the chip and the card alone.
   */
  lemma Stage2SucceedsExactly(sha: Hasher, m: Machine, i: Stage2Images)
    requires |m.chip.flash| == NOR_SIZE && m.Live() && m.phase == INSTALLER_BOOTED && m.chip.fault.failAt == None
    ensures var r := Stage2Run(sha, m, i);
            && (r.Live() <==> ValidStage2(i) && Recoverable(sha, i, m.chip.flash, m.backup, m.checkpoint))
            && (!r.Live() ==> r.chip.flash == m.chip.flash && r.backup == m.backup && r.checkpoint == m.checkpoint)
            && (!r.Live() && ValidStage2(i) ==> r.phase == FailedWriteOrStateGate)
  {
    if ValidStage2(i) {
      if Recoverable(sha, i, m.chip.flash, m.backup, m.checkpoint) {
        Stage2RunCuts(sha, m, i);
      } else {
        Stage2Refuses(sha, m, i);
      }
    }
  }

  /* ---- Stage 2 retried ---- */

  /** What outlives a power cut: the chip, and the backup and checkpoint on the card. */
  datatype Carried = Carried(flash: Bytes, backup: Option<Bytes>, checkpoint: Option<Bytes>)

  function Boot(s: Carried, fault: Fault): Machine {
    Machine(Chip(s.flash, fault, Running), INSTALLER_BOOTED, s.backup, None, s.checkpoint)
  }

  ghost function Attempt(sha: Hasher, i: Stage2Images, s: Carried, fault: Fault): Carried {
    var r := Stage2Run(sha, Boot(s, fault), i);
    Carried(r.chip.flash, r.backup, r.checkpoint)
  }

  /** One attempt after another, each under its own fault. */
  ghost function Attempts(sha: Hasher, i: Stage2Images, s: Carried, faults: seq<Fault>): Carried {
    if faults == [] then s
    else Attempt(sha, i, Attempts(sha, i, s, faults[..|faults| - 1]), faults[|faults| - 1])
  }

  /** What every attempt keeps, measured against the state s0 before the first. */
  ghost predicate Resumable(sha: Hasher, i: Stage2Images, s0: Carried, s: Carried)
    requires ValidStage2(i) && |s0.flash| == NOR_SIZE
  {
    && |s.flash| == NOR_SIZE
    && Recoverable(sha, i, s.flash, s.backup, s.checkpoint)
    && (forall p :: 0 <= p < NOR_SIZE && Untouched(Stage2Writes(i), p) ==> s.flash[p] == s0.flash[p])
    && (s.backup == s0.backup ||
        (i.mode == Initialize && s0.backup == None && s.backup == Some(s0.flash[MTD3.offset..MTD3.End()])))
    && (i.mode == Initialize && s.backup == None ==> s.flash == s0.flash)
    && (i.mode != Initialize ==> s.checkpoint == s0.checkpoint)
  }

  lemma StaysRecoverable(sha: Hasher, i: Stage2Images, m: Machine, r: Machine)
    requires ValidStage2(i) && |m.chip.flash| == NOR_SIZE == |r.chip.flash|
    requires Recoverable(sha, i, m.chip.flash, m.backup, m.checkpoint) && CardStep(sha, i, m.chip.flash, m, r)
    requires r.chip.flash == m.chip.flash || Secured(sha, i, r)
    ensures Recoverable(sha, i, r.chip.flash, r.backup, r.checkpoint)
  {
    hide ExpectedRecord, ValidStage2;
  }

  lemma AttemptKeeps(sha: Hasher, i: Stage2Images, s0: Carried, s: Carried, fault: Fault)
    requires ValidStage2(i) && |s0.flash| == NOR_SIZE && Resumable(sha, i, s0, s)
    ensures Resumable(sha, i, s0, Attempt(sha, i, s, fault))
  {
    hide Stage2Run, Plan, Ended, Stage2Writes, ExpectedRecord, Recoverable, ValidStage2, Secured, Untouched, CardStep;
    var m := Boot(s, fault);
    AttemptFrame(sha, i, s, fault);
    Stage2RunCuts(sha, m, i);
    StaysRecoverable(sha, i, m, Stage2Run(sha, m, i));
    StaysResumable(sha, i, s0, s, m, Stage2Run(sha, m, i));
  }

  lemma StaysResumable(sha: Hasher, i: Stage2Images, s0: Carried, s: Carried, m: Machine, r: Machine)
    requires ValidStage2(i) && |s0.flash| == NOR_SIZE && Resumable(sha, i, s0, s)
    requires m == Boot(s, m.chip.fault) && CardStep(sha, i, s.flash, m, r)
    requires |r.chip.flash| == NOR_SIZE && Recoverable(sha, i, r.chip.flash, r.backup, r.checkpoint)
    requires forall p :: 0 <= p < NOR_SIZE && Untouched(Stage2Writes(i), p) ==> r.chip.flash[p] == s.flash[p]
    requires r.chip.flash != s.flash ==> Secured(sha, i, r)
    ensures Resumable(sha, i, s0, Carried(r.chip.flash, r.backup, r.checkpoint))
  {
    hide Stage2Writes, ExpectedRecord, Recoverable, ValidStage2, Untouched;
  }

  lemma AttemptFrame(sha: Hasher, i: Stage2Images, s: Carried, fault: Fault)
    requires ValidStage2(i) && |s.flash| == NOR_SIZE && Recoverable(sha, i, s.flash, s.backup, s.checkpoint)
    ensures var d := Attempt(sha, i, s, fault).flash;
            |d| == NOR_SIZE && forall p :: 0 <= p < NOR_SIZE && Untouched(Stage2Writes(i), p) ==> d[p] == s.flash[p]
  {
    hide Stage2Run, Plan, Ended, Stage2Writes, Recoverable, ValidStage2, CardStep, Secured, Untouched;
    Stage2RunCuts(sha, Boot(s, fault), i);
    var r := Stage2Run(sha, Boot(s, fault), i);
    EndedSize(s.flash, Stage2Writes(i), FINAL_READBACK_VERIFIED, r);
    forall p | 0 <= p < NOR_SIZE && Untouched(Stage2Writes(i), p) ensures r.chip.flash[p] == s.flash[p] {
      EndedFrame(s.flash, Stage2Writes(i), FINAL_READBACK_VERIFIED, r, p);
    }
  }

  lemma {:induction false} AttemptsKeep(sha: Hasher, i: Stage2Images, s0: Carried, faults: seq<Fault>)
    requires ValidStage2(i) && |s0.flash| == NOR_SIZE && Recoverable(sha, i, s0.flash, s0.backup, s0.checkpoint)
    ensures Resumable(sha, i, s0, Attempts(sha, i, s0, faults))
  {
    if faults != [] {
      AttemptsKeep(sha, i, s0, faults[..|faults| - 1]);
      AttemptKeeps(sha, i, s0, Attempts(sha, i, s0, faults[..|faults| - 1]), faults[|faults| - 1]);
    }
  }

  lemma ConvergedFlash(sha: Hasher, i: Stage2Images, s0: Carried, s: Carried)
    requires ValidStage2(i) && |s0.flash| == NOR_SIZE && Resumable(sha, i, s0, s)
    ensures Plan(NOR_SIZE, Stage2Writes(i)) && Apply(s.flash, Stage2Writes(i)) == Apply(s0.flash, Stage2Writes(i))
  {
    Stage2Plan(i);
    hide ValidStage2, Stage2Writes, Recoverable, Plan, Apply, Untouched;
    RetryConverges(s0.flash, Stage2Writes(i), s.flash);
  }

  /**
   * What a completed stage 2 leaves on the card: the backup there was, or else one of the original mtd3, with the
   * checkpoint that vouches for it; in the other modes what was there.
   */
  ghost predicate CardSettled(sha: Hasher, i: Stage2Images, s0: Carried, r: Machine)
    requires ValidStage2(i) && |s0.flash| == NOR_SIZE
  {
    if i.mode == Initialize then
      var backup := if s0.backup.Some? then s0.backup.value else s0.flash[MTD3.offset..MTD3.End()];
      |backup| == MTD3.size && r.backup == Some(backup) && r.checkpoint == Some(ExpectedRecord(sha, i, backup))
    else r.backup == s0.backup && r.checkpoint == s0.checkpoint
  }

  lemma LastCardStep(sha: Hasher, i: Stage2Images, s0: Carried, s: Carried, fault: Fault, r: Machine)
    requires ValidStage2(i) && |s0.flash| == NOR_SIZE && Resumable(sha, i, s0, s)
    requires CardStep(sha, i, s.flash, Boot(s, fault), r) && Secured(sha, i, r)
    ensures CardSettled(sha, i, s0, r)
  {
    hide ValidStage2, ExpectedRecord, Recoverable, Untouched, Stage2Writes;
  }

  /**
   * Retry convergence. After any finite sequence of attempts, each cut anywhere, the backup is still the one
   * there was or the original mtd3, and one uncut attempt succeeds, leaves the chip exactly as a single uncut
   * attempt on the original chip would have, and leaves backup and checkpoint of the original on the card.
   */
  lemma Stage2Converges(sha: Hasher, i: Stage2Images, s0: Carried, faults: seq<Fault>, last: Fault)
    requires ValidStage2(i) && |s0.flash| == NOR_SIZE && Recoverable(sha, i, s0.flash, s0.backup, s0.checkpoint)
    requires last.failAt == None
    ensures Plan(NOR_SIZE, Stage2Writes(i))
    ensures var s := Attempts(sha, i, s0, faults);
            var r := Stage2Run(sha, Boot(s, last), i);
            && (s.backup == s0.backup || (s0.backup == None && s.backup == Some(s0.flash[MTD3.offset..MTD3.End()])))
            && r.Live() && r.phase == FINAL_READBACK_VERIFIED
            && r.chip.flash == Apply(s0.flash, Stage2Writes(i)) && CardSettled(sha, i, s0, r)
  {
    AttemptsKeep(sha, i, s0, faults);
    var s := Attempts(sha, i, s0, faults);
    ConvergedFlash(sha, i, s0, s);
    hide Stage2Run, Attempts, Plan, Apply, Recoverable, ExpectedRecord, ValidStage2, Stage2Writes, Untouched, CardStep,
         Secured, CardSettled;
    Stage2RunCuts(sha, Boot(s, last), i);
    LastCardStep(sha, i, s0, s, last, Stage2Run(sha, Boot(s, last), i));
  }

  /** Once mtd3 has changed, a retry goes on with the images of the checkpoint and with no others. */
  lemma OtherImagesRejected(sha: Hasher, i: Stage2Images, other: Stage2Images, s: Carried, last: Fault)
    requires ValidStage2(i) && ValidStage2(other) && i.mode == other.mode == Initialize
    requires |s.flash| == NOR_SIZE && s.backup.Some? && |s.backup.value| == MTD3.size && last.failAt == None
    requires s.flash[MTD3.offset..MTD3.End()] != s.backup.value
    requires s.checkpoint == Some(ExpectedRecord(sha, i, s.backup.value))
    ensures var r := Stage2Run(sha, Boot(s, last), other);
            && (r.Live() <==> ExpectedRecord(sha, other, s.backup.value) == ExpectedRecord(sha, i, s.backup.value))
            && (!r.Live() ==> r.chip.flash == s.flash)
  {
    Stage2SucceedsExactly(sha, Boot(s, last), other);
  }

  /* ---- Stock restore ---- */

  /** The protected partitions hold their reviewed contents. */
  predicate Protected(i: RestoreImages, flash: Bytes)
    requires ValidRestore(i) && |flash| == NOR_SIZE
  {
    && flash[MTD0.offset..MTD0.End()] == i.protected[0]
    && flash[MTD4.offset..MTD4.End()] == i.protected[1]
    && flash[MTD5.offset..MTD5.End()] == i.protected[2]
  }

  lemma RestoredUserAndRoot(c: Bytes, i: RestoreImages)
    requires ValidRestore(i) && |c| == NOR_SIZE && Plan(NOR_SIZE, RestoreWrites(i))
    ensures var d := Apply(c, RestoreWrites(i));
            d[MTD2.offset..MTD2.End()] == i.mtd2 && d[MTD3.offset..MTD3.End()] == i.mtd3
  {
    hide Plan, Apply;
    AppliedRegion(c, RestoreWrites(i), 0);
    AppliedRegion(c, RestoreWrites(i), 1);
  }

  lemma RestoredKernel(c: Bytes, i: RestoreImages)
    requires ValidRestore(i) && |c| == NOR_SIZE && Plan(NOR_SIZE, RestoreWrites(i))
    ensures Apply(c, RestoreWrites(i))[MTD1.offset..MTD1.End()] == i.mtd1
  {
    hide Plan, Apply;
    AppliedRegion(c, RestoreWrites(i), 2);
    AppliedRegion(c, RestoreWrites(i), 3);
    KernelWhole(i.mtd1, Apply(c, RestoreWrites(i)), RestoreWrites(i)[2], RestoreWrites(i)[3]);
  }

  /** What a complete restore leaves: the three images where they belong, everything else as before. */
  lemma RestoredChip(c: Bytes, i: RestoreImages)
    requires ValidRestore(i) && |c| == NOR_SIZE
    ensures Plan(NOR_SIZE, RestoreWrites(i))
    ensures var d := Apply(c, RestoreWrites(i));
            && d[MTD1.offset..MTD1.End()] == i.mtd1 && d[MTD2.offset..MTD2.End()] == i.mtd2
            && d[MTD3.offset..MTD3.End()] == i.mtd3
            && (Protected(i, d) <==> Protected(i, c))
  {
    RestorePlan(i);
    RestoredUserAndRoot(c, i);
    RestoredKernel(c, i);
    hide Plan, Apply, RestoreWrites;
    RestoreSpares(c, i, MTD0);
    RestoreSpares(c, i, MTD4);
    RestoreSpares(c, i, MTD5);
  }

  lemma RestoreSpares(c: Bytes, i: RestoreImages, p: Partition)
    requires ValidRestore(i) && |c| == NOR_SIZE && Plan(NOR_SIZE, RestoreWrites(i)) && p in {MTD0, MTD4, MTD5}
    ensures Apply(c, RestoreWrites(i))[p.offset..p.End()] == c[p.offset..p.End()]
  {
    hide Plan, Apply;
    FrameOf(c, RestoreWrites(i), Apply(c, RestoreWrites(i)), p);
  }

  lemma FrameOf(c: Bytes, ws: seq<RegionWrite>, d: Bytes, p: Partition)
    requires Plan(|c|, ws) && d == Apply(c, ws) && p.End() <= |c|
    requires forall j :: 0 <= j < |ws| ==> ws[j].End() <= p.offset || p.End() <= ws[j].offset
    ensures d[p.offset..p.End()] == c[p.offset..p.End()]
  {
    forall q: nat | p.offset <= q < p.End() ensures d[q] == c[q] {
      AppliedOutside(c, ws, q);
    }
  }

  lemma OnVerifyProtected(c: Bytes, ws: seq<RegionWrite>, done: nat, phase: Phase, m: Machine, i: RestoreImages)
    requires ValidRestore(i) && |c| == NOR_SIZE && Plan(|c|, ws) && On(c, ws, done, phase, m)
    requires m.Live() ==> Protected(i, m.chip.flash)
    ensures VerifyProtected(m, i) == m
  {
    hide Plan, Apply, CutState;
  }

  lemma OnExpect(c: Bytes, ws: seq<RegionWrite>, done: nat, phase: Phase, m: Machine, p: Partition, op: Op, x: Bytes)
    requires |c| == NOR_SIZE && Plan(|c|, ws) && On(c, ws, done, phase, m) && p.End() <= |c|
    requires (m.Live() ==> m.chip.flash[p.offset..p.End()] == x) && (forall j :: 0 <= j < |ws| ==> ws[j].op != op)
    ensures var r := m.Read(p, op).Expect(p, x, ReadbackMismatch);
            On(c, ws, done, phase, r) && SameCard(m, r) && r.chip.flash == m.chip.flash && (r.Live() ==> m.Live())
  {
    hide Plan, Apply, CutState;
    OnRead(c, ws, done, phase, m, p, op);
  }

  lemma OnEnterTwo(c: Bytes, ws: seq<RegionWrite>, done: nat, phase: Phase, m: Machine, p: Phase, q: Phase)
    requires Plan(|c|, ws) && On(c, ws, done, phase, m) && Next(phase) == Some(p) && Next(p) == Some(q)
    ensures On(c, ws, done, q, m.Enter(p).Enter(q)) && SameCard(m, m.Enter(p).Enter(q))
  {
    hide Plan, On, Machine.Enter;
    OnEnter(c, ws, done, phase, m, p);
    OnEnter(c, ws, done, p, m.Enter(p), q);
  }

  lemma OnFlashStep(sha: Hasher, c: Bytes, ws: seq<RegionWrite>, done: nat, phase: Phase, m: Machine, p: Phase,
                    q: Phase)
    requires Plan(|c|, ws) && done < |ws| && On(c, ws, done, phase, m) && Next(phase) == Some(p) && Next(p) == Some(q)
    ensures var r := m.FlashStep(sha, ws[done], p, q);
            On(c, ws, done + 1, q, r) && SameCard(m, r)
  {
    hide Plan, On, Machine.Enter, Machine.Flash;
    OnFlash(sha, c, ws, done, phase, m);
    OnEnterTwo(c, ws, done + 1, phase, m.Flash(sha, ws[done]), p, q);
  }

  lemma RestoreCount(i: RestoreImages)
    requires ValidRestore(i)
    ensures |RestoreWrites(i)| == 4
  {
  }

  lemma OnRestoreUserAndRoot(sha: Hasher, c: Bytes, m: Machine, i: RestoreImages)
    requires ValidRestore(i) && Plan(|c|, RestoreWrites(i)) && On(c, RestoreWrites(i), 0, RESTORE_PREPARED, m)
    ensures var r := RestoreUserAndRoot(sha, m, i);
            On(c, RestoreWrites(i), 2, MTD2_READBACK_VERIFIED, r) && SameCard(m, r)
  {
    hide Plan, On, RestoreWrites, ValidRestore, Machine.FlashStep;
    var ws := RestoreWrites(i);
    RestoreCount(i);
    OnFlashStep(sha, c, ws, 0, RESTORE_PREPARED, m, MTD3_WRITTEN, MTD3_READBACK_VERIFIED);
    var m1 := m.FlashStep(sha, ws[0], MTD3_WRITTEN, MTD3_READBACK_VERIFIED);
    OnFlashStep(sha, c, ws, 1, MTD3_READBACK_VERIFIED, m1, MTD2_WRITTEN, MTD2_READBACK_VERIFIED);
  }

  lemma OnRestoreKernel(sha: Hasher, c: Bytes, m: Machine, i: RestoreImages)
    requires ValidRestore(i) && Plan(|c|, RestoreWrites(i)) && On(c, RestoreWrites(i), 2, MTD2_READBACK_VERIFIED, m)
    ensures var r := RestoreKernel(sha, m, i);
            On(c, RestoreWrites(i), 4, STOCK_ACTIVATION_READBACK_VERIFIED, r) && SameCard(m, r)
  {
    hide Plan, On, RestoreWrites, ValidRestore, Machine.FlashStep;
    var ws := RestoreWrites(i);
    RestoreCount(i);
    OnFlashStep(sha, c, ws, 2, MTD2_READBACK_VERIFIED, m, MTD1_TAIL_WRITTEN, MTD1_TAIL_READBACK_VERIFIED);
    var m1 := m.FlashStep(sha, ws[2], MTD1_TAIL_WRITTEN, MTD1_TAIL_READBACK_VERIFIED);
    OnFlashStep(sha, c, ws, 3, MTD1_TAIL_READBACK_VERIFIED, m1, STOCK_ACTIVATION_WRITTEN, STOCK_ACTIVATION_READBACK_VERIFIED);
  }

  lemma OnCompareStock(c: Bytes, ws: seq<RegionWrite>, phase: Phase, m: Machine, i: RestoreImages)
    requires |c| == NOR_SIZE && Plan(|c|, ws) && On(c, ws, |ws|, phase, m)
    requires m.Live() ==> m.Content(MTD1) == i.mtd1 && m.Content(MTD2) == i.mtd2 && m.Content(MTD3) == i.mtd3
    requires forall j :: 0 <= j < |ws| ==> !ws[j].op.StockFull?
    ensures var r := CompareStock(m, i);
            On(c, ws, |ws|, phase, r) && SameCard(m, r) && r.chip.flash == m.chip.flash && (r.Live() ==> m.Live())
  {
    var n := |ws|;
    assert m.chip.flash == c || |m.chip.flash| == |c|;
    hide Plan, Machine.Read, Machine.Expect, Tracks, On;
    OnExpect(c, ws, n, phase, m, MTD1, StockFull(1), i.mtd1);
    var m1 := m.Read(MTD1, StockFull(1)).Expect(MTD1, i.mtd1, ReadbackMismatch);
    OnExpect(c, ws, n, phase, m1, MTD2, StockFull(2), i.mtd2);
    var m2 := m1.Read(MTD2, StockFull(2)).Expect(MTD2, i.mtd2, ReadbackMismatch);
    OnExpect(c, ws, n, phase, m2, MTD3, StockFull(3), i.mtd3);
  }

  lemma OnRestoreCheck(c: Bytes, m: Machine, i: RestoreImages)
    requires ValidRestore(i) && |c| == NOR_SIZE && Plan(|c|, RestoreWrites(i)) && Protected(i, c)
    requires On(c, RestoreWrites(i), 4, STOCK_ACTIVATION_READBACK_VERIFIED, m)
    ensures On(c, RestoreWrites(i), 4, STOCK_ACTIVATION_READBACK_VERIFIED, RestoreCheck(m, i))
    ensures SameCard(m, RestoreCheck(m, i))
  {
    var ws, phase := RestoreWrites(i), STOCK_ACTIVATION_READBACK_VERIFIED;
    assert ws[..4] == ws;
    RestoredChip(c, i);
    assert m.Live() ==> m.chip.flash == Apply(c, ws);
    assert forall j :: 0 <= j < |ws| ==> !ws[j].op.StockFull?;
    hide Plan, Apply, On, RestoreWrites, CompareStock;
    OnCompareStock(c, ws, phase, m, i);
    var m3 := CompareStock(m, i);
    OnVerifyProtected(c, ws, 4, phase, m3, i);
  }

  lemma OnPrepareRestore(c: Bytes, m: Machine, i: RestoreImages)
    requires ValidRestore(i) && |c| == NOR_SIZE && Plan(|c|, RestoreWrites(i)) && Protected(i, c)
    requires m.Live() && m.phase == BACKUP_VALIDATED && m.chip.flash == c
    ensures On(c, RestoreWrites(i), 0, RESTORE_PREPARED, PrepareRestore(m, i)) && SameCard(m, PrepareRestore(m, i))
  {
    var ws := RestoreWrites(i);
    assert On(c, ws, 0, BACKUP_VALIDATED, m);
    OnVerifyProtected(c, ws, 0, BACKUP_VALIDATED, m, i);
    hide Plan, On, RestoreWrites, Machine.Enter, VerifyProtected;
    OnEnterTwo(c, ws, 0, BACKUP_VALIDATED, m, SAME_DEVICE_VERIFIED, RESTORE_IMAGES_VALIDATED);
    OnEnter(c, ws, 0, RESTORE_IMAGES_VALIDATED, m.Enter(SAME_DEVICE_VERIFIED).Enter(RESTORE_IMAGES_VALIDATED),
            RESTORE_PREPARED);
  }

  lemma OnRestoreAll(sha: Hasher, m: Machine, i: RestoreImages)
    requires ValidRestore(i) && |m.chip.flash| == NOR_SIZE && m.Live() && m.phase == BACKUP_VALIDATED
    requires Protected(i, m.chip.flash)
    ensures Plan(NOR_SIZE, RestoreWrites(i))
    ensures var r := RestoreAll(sha, m, i);
            On(m.chip.flash, RestoreWrites(i), 4, STOCK_ACTIVATION_READBACK_VERIFIED, r) && SameCard(m, r)
  {
    RestorePlan(i);
    var c := m.chip.flash;
    OnPrepareRestore(c, m, i);
    hide Plan, On, PrepareRestore, RestoreUserAndRoot, RestoreKernel, RestoreWrites, Protected, ValidRestore;
    OnRestoreUserAndRoot(sha, c, PrepareRestore(m, i), i);
    OnRestoreKernel(sha, c, RestoreUserAndRoot(sha, PrepareRestore(m, i), i), i);
  }

  /** Stock restore of a chip whose protected partitions match, any fault: it finishes or is cut in its plan. */
  lemma RestoreRunCuts(sha: Hasher, m: Machine, i: RestoreImages)
    requires ValidRestore(i) && |m.chip.flash| == NOR_SIZE && m.Live() && m.phase == BACKUP_VALIDATED
    requires Protected(i, m.chip.flash)
    ensures Plan(NOR_SIZE, RestoreWrites(i))
    ensures var r := RestoreRun(sha, m, i);
            SameCard(m, r) && Ended(m.chip.flash, RestoreWrites(i), STOCK_RESTORE_COMPLETE, r)
  {
    var c, ws := m.chip.flash, RestoreWrites(i);
    assert |ws| == 4;
    OnRestoreAll(sha, m, i);
    hide Plan, On, Machine.Enter, RestoreAll, RestoreCheck, RestoreWrites, Protected, ValidRestore;
    OnRestoreCheck(c, RestoreAll(sha, m, i), i);
    var m3 := RestoreCheck(RestoreAll(sha, m, i), i);
    OnEnterTwo(c, ws, 4, STOCK_ACTIVATION_READBACK_VERIFIED, m3, STOCK_FULL_READBACK_VERIFIED, STOCK_RESTORE_COMPLETE);
    OnSettle(c, ws, STOCK_RESTORE_COMPLETE, m3.Enter(STOCK_FULL_READBACK_VERIFIED).Enter(STOCK_RESTORE_COMPLETE));
  }

  /** A chip whose protected partitions differ is refused before the first erase, and nothing on it changes. */
  lemma RestoreRefuses(sha: Hasher, m: Machine, i: RestoreImages)
    requires ValidRestore(i) && |m.chip.flash| == NOR_SIZE && m.Live() && !Protected(i, m.chip.flash)
    ensures !RestoreAll(sha, m, i).Live() && RestoreRun(sha, m, i).chip == m.chip.(outcome := Failed(ProtectedDiffers))
    ensures m.phase == BACKUP_VALIDATED ==> RestoreRun(sha, m, i).phase == FailedWriteOrStateGate
  {
    var refused := m.Raise(ProtectedDiffers);
    assert VerifyProtected(m, i) == refused;
    hide ValidRestore, RestoreWrites, Machine.Enter, Machine.FlashStep, VerifyProtected, RestoreCheck;
    HaltedEnter(refused, SAME_DEVICE_VERIFIED);
    HaltedEnter(refused, RESTORE_IMAGES_VALIDATED);
    HaltedEnter(refused, RESTORE_PREPARED);
    var ws := RestoreWrites(i);
    HaltedStep(sha, refused, ws[0], MTD3_WRITTEN, MTD3_READBACK_VERIFIED);
    HaltedStep(sha, refused, ws[1], MTD2_WRITTEN, MTD2_READBACK_VERIFIED);
    HaltedStep(sha, refused, ws[2], MTD1_TAIL_WRITTEN, MTD1_TAIL_READBACK_VERIFIED);
    HaltedStep(sha, refused, ws[3], STOCK_ACTIVATION_WRITTEN, STOCK_ACTIVATION_READBACK_VERIFIED);
    HaltedCheck(refused, i);
    HaltedEnter(refused, STOCK_FULL_READBACK_VERIFIED);
    HaltedEnter(refused, STOCK_RESTORE_COMPLETE);
  }

  lemma HaltedEnter(m: Machine, next: Phase)
    requires !m.Live()
    ensures m.Enter(next) == m
  {
  }

  lemma HaltedStep(sha: Hasher, m: Machine, w: RegionWrite, written: Phase, verified: Phase)
    requires !m.Live()
    ensures m.FlashStep(sha, w, written, verified) == m
  {
    assert m.Flash(sha, w) == m;
    hide Machine.Flash, Machine.Enter;
    HaltedEnter(m, written);
    HaltedEnter(m, verified);
  }

  lemma HaltedCheck(m: Machine, i: RestoreImages)
    requires ValidRestore(i) && !m.Live()
    ensures RestoreCheck(m, i) == m
  {
  }

  /** After its last write a restore only reads. */
  lemma RestoreTailReads(sha: Hasher, m: Machine, i: RestoreImages)
    requires ValidRestore(i)
    ensures RestoreRun(sha, m, i).chip.flash == RestoreAll(sha, m, i).chip.flash
  {
    hide RestoreAll, ValidRestore;
  }
}
