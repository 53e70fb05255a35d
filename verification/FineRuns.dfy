/** Fault injection without physical steps refines the fine-grained one, for every installer. */
module FineRuns {
  import opened Common
  import opened Layout
  import opened Nor
  import opened Flashing
  import opened Installers

  function FineMachine(m: Machine): Machine {
    m.(chip := FineChip(m.chip))
  }

  /** The same machine with physical steps, cut at the same event unless that one is such a step. */
  lemma FineMachineExactly(m: Machine)
    ensures var f, at := FineMachine(m), m.chip.fault.failAt;
            && f == m.(chip := m.chip.(fault := f.chip.fault)) && f.chip.fault.physical
            && (at.None? ==> f.chip.fault.failAt == None)
            && (at.Some? ==>
                  var e := at.value;
                  var step := || e.BeforeEraseSector? || e.DuringEraseSector? || e.AfterEraseSector?
                              || e.BeforeWritePage? || e.DuringWritePage? || e.AfterWritePage?;
                  f.chip.fault.failAt == if step then None else at)
  {
  }

  lemma FineEnter(m: Machine, next: Phase)
    requires !m.chip.fault.physical
    ensures FineMachine(m).Enter(next) == FineMachine(m.Enter(next)) && !m.Enter(next).chip.fault.physical
  {
  }

  lemma FineFlash(sha: Hasher, m: Machine, w: RegionWrite)
    requires !m.chip.fault.physical
    ensures FineMachine(m).Flash(sha, w) == FineMachine(m.Flash(sha, w)) && !m.Flash(sha, w).chip.fault.physical
  {
    CoarseRegionIsFine(sha, m.chip, w);
    hide WriteAndVerify;
  }

  lemma FineGates(m: Machine)
    requires !m.chip.fault.physical
    ensures FineMachine(m).PassGates() == FineMachine(m.PassGates()) && !m.PassGates().chip.fault.physical
  {
    hide Machine.Enter, FineMachine;
    FineEnter(m, STOCK_BACKUP_COMPLETE);
    var m1 := m.Enter(STOCK_BACKUP_COMPLETE);
    FineEnter(m1, STOCK_BACKUP_VERIFIED);
    var m2 := m1.Enter(STOCK_BACKUP_VERIFIED);
    FineEnter(m2, RECOVERY_CHECKPOINT_VERIFIED);
    var m3 := m2.Enter(RECOVERY_CHECKPOINT_VERIFIED);
    FineEnter(m3, FINAL_BUNDLE_VERIFIED);
    FineEnter(m3.Enter(FINAL_BUNDLE_VERIFIED), RAM_RESIDENT_INSTALL_MODE);
  }

  lemma FineKernel(sha: Hasher, m: Machine, tail: RegionWrite, block: RegionWrite)
    requires !m.chip.fault.physical
    ensures FineMachine(m).FlashKernel(sha, tail, block) == FineMachine(m.FlashKernel(sha, tail, block))
    ensures !m.FlashKernel(sha, tail, block).chip.fault.physical
  {
    hide Machine.Enter, Machine.Flash, FineMachine;
    FineFlash(sha, m, tail);
    FineEnter(m.Flash(sha, tail), FINAL_KERNEL_WRITTEN);
    var m1 := m.Flash(sha, tail).Enter(FINAL_KERNEL_WRITTEN);
    FineFlash(sha, m1, block);
    FineEnter(m1.Flash(sha, block), ACTIVATION_WRITTEN);
  }

  lemma FineReadAndVerify(sha: Hasher, m: Machine, p: Partition, op: Op, x: Bytes)
    requires !m.chip.fault.physical
    ensures FineMachine(m).ReadAndVerify(sha, p, op, x) == FineMachine(m.ReadAndVerify(sha, p, op, x))
    ensures !m.ReadAndVerify(sha, p, op, x).chip.fault.physical
  {
  }

  lemma FineFinalWrite(sha: Hasher, m: Machine, i: FinalImages)
    requires ValidFinal(i) && !m.chip.fault.physical
    ensures FinalWrite(sha, FineMachine(m), i) == FineMachine(FinalWrite(sha, m, i))
    ensures !FinalWrite(sha, m, i).chip.fault.physical
  {
    var ws := FinalWrites(i);
    hide Machine.Enter, Machine.Flash, Machine.FlashKernel, FinalWrites, ValidFinal, FineMachine;
    FineFlash(sha, m, ws[0]);
    var m2 := m.Flash(sha, ws[0]);
    FineFlash(sha, m2, ws[1]);
    var m3 := m2.Flash(sha, ws[1]);
    FineEnter(m3, FINAL_DATA_WRITTEN);
    var m4 := m3.Enter(FINAL_DATA_WRITTEN);
    FineFlash(sha, m4, ws[2]);
    FineEnter(m4.Flash(sha, ws[2]), FINAL_ROOTFS_WRITTEN);
    FineKernel(sha, m4.Flash(sha, ws[2]).Enter(FINAL_ROOTFS_WRITTEN), ws[3], ws[4]);
  }

  /**
   * Granularity. A run without physical steps, cut at any event, ends exactly where a run with physical steps
   * ends that is cut at the same event, or is not cut when the event is a physical one.
   */
  lemma CoarseFinalRunIsFine(sha: Hasher, m: Machine, i: FinalImages)
    requires !m.chip.fault.physical
    ensures FinalRun(sha, FineMachine(m), i) == FineMachine(FinalRun(sha, m, i))
  {
    if ValidFinal(i) {
      hide Machine.Enter, Machine.PassGates, Machine.ReadAndVerify, FinalWrite, ValidFinal, FineMachine, Machine.Settle;
      FineEnter(m, DEVICE_VERIFIED);
      FineGates(m.Enter(DEVICE_VERIFIED));
      var m1 := m.Enter(DEVICE_VERIFIED).PassGates();
      FineFinalWrite(sha, m1, i);
      var m2 := FinalWrite(sha, m1, i);
      FineReadAndVerify(sha, m2, MTD1, FinalKernel, Padded(i.kernel, MTD1.size));
      var m3 := m2.ReadAndVerify(sha, MTD1, FinalKernel, Padded(i.kernel, MTD1.size));
      FineEnter(m3, FINAL_READBACK_VERIFIED);
      FineSettle(m3.Enter(FINAL_READBACK_VERIFIED));
    }
  }

  lemma FineSettle(m: Machine)
    ensures FineMachine(m).Settle() == FineMachine(m.Settle())
  {
  }

  lemma FineRead(m: Machine, p: Partition, op: Op)
    requires !m.chip.fault.physical
    ensures FineMachine(m).Read(p, op) == FineMachine(m.Read(p, op)) && !m.Read(p, op).chip.fault.physical
  {
  }

  lemma FineExpect(m: Machine, p: Partition, x: Bytes, e: MtdError)
    requires !m.chip.fault.physical
    ensures FineMachine(m).Expect(p, x, e) == FineMachine(m.Expect(p, x, e)) && !m.Expect(p, x, e).chip.fault.physical
  {
  }

  /* Stage 2. */

  lemma FineTakeBackup(m: Machine)
    requires !m.chip.fault.physical
    ensures TakeBackup(FineMachine(m)) == FineMachine(TakeBackup(m)) && !TakeBackup(m).chip.fault.physical
  {
    FineRead(m, MTD3, UserdataBackup);
    hide Machine.Read;
  }

  lemma FineWriteCheckpoint(m: Machine, record: Bytes, status: BackupStatus)
    requires !m.chip.fault.physical
    ensures WriteCheckpoint(FineMachine(m), record, status) == FineMachine(WriteCheckpoint(m, record, status))
    ensures !WriteCheckpoint(m, record, status).chip.fault.physical
  {
  }

  lemma FineRequireCheckpoint(m: Machine, record: Bytes)
    requires !m.chip.fault.physical
    ensures RequireCheckpoint(FineMachine(m), record) == FineMachine(RequireCheckpoint(m, record))
    ensures !RequireCheckpoint(m, record).chip.fault.physical
  {
  }

  lemma FineSecureBackup(sha: Hasher, m: Machine, i: Stage2Images)
    requires ValidStage2(i) && !m.chip.fault.physical
    ensures SecureBackup(sha, FineMachine(m), i) == FineMachine(SecureBackup(sha, m, i))
    ensures !SecureBackup(sha, m, i).chip.fault.physical
  {
    hide ValidStage2, TakeBackup, WriteCheckpoint, RequireCheckpoint, ExpectedRecord, Machine.Read;
    FineTakeBackup(m);
    var taken := if m.backup.None? then TakeBackup(m) else m;
    FineRead(taken, MTD3, UserdataBackupVerify);
    var r := taken.Read(MTD3, UserdataBackupVerify);
    if taken.backup.Some? && |taken.backup.value| == MTD3.size {
      var record := ExpectedRecord(sha, i, taken.backup.value);
      FineWriteCheckpoint(r, record, if m.backup.None? then Exported else Reused);
      FineRequireCheckpoint(r, record);
    }
  }

  lemma FineSettleData(sha: Hasher, m: Machine, i: Stage2Images)
    requires ValidStage2(i) && !m.chip.fault.physical
    ensures SettleData(sha, FineMachine(m), i) == FineMachine(SettleData(sha, m, i))
    ensures !SettleData(sha, m, i).chip.fault.physical
  {
    var region, w := Partition(i.dataOffset, i.dataSpan), Stage2Writes(i)[0];
    hide ValidStage2, Stage2Writes, Machine.Read, Machine.Flash, Machine.Expect;
    FineRead(m, region, DataBefore);
    var before := m.Read(region, DataBefore);
    FineRead(before, region, DataPreserved);
    FineExpect(before.Read(region, DataPreserved), region, before.Content(region), PreservedDataChanged);
    FineFlash(sha, before, w);
  }

  lemma FineStage2Write(sha: Hasher, mtd2: Bytes, m: Machine, i: Stage2Images)
    requires ValidStage2(i) && !m.chip.fault.physical
    ensures Stage2Write(sha, mtd2, FineMachine(m), i) == FineMachine(Stage2Write(sha, mtd2, m, i))
    ensures !Stage2Write(sha, mtd2, m, i).chip.fault.physical
  {
    var ws, kernel := Stage2Writes(i), Padded(i.kernel, MTD1.size);
    hide ValidStage2, Stage2Writes, Machine.Enter, Machine.Flash, Machine.FlashKernel, Machine.ReadAndVerify, Machine.Expect,
         SettleData, FineMachine;
    FineSettleData(sha, m, i);
    FineEnter(SettleData(sha, m, i), FINAL_DATA_WRITTEN);
    var m1 := SettleData(sha, m, i).Enter(FINAL_DATA_WRITTEN);
    FineFlash(sha, m1, ws[|ws| - 3]);
    FineEnter(m1.Flash(sha, ws[|ws| - 3]), FINAL_ROOTFS_WRITTEN);
    var m2 := m1.Flash(sha, ws[|ws| - 3]).Enter(FINAL_ROOTFS_WRITTEN);
    FineKernel(sha, m2, ws[|ws| - 2], ws[|ws| - 1]);
    var m3 := m2.FlashKernel(sha, ws[|ws| - 2], ws[|ws| - 1]);
    FineReadAndVerify(sha, m3, MTD1, FinalKernel, kernel);
    var m4 := m3.ReadAndVerify(sha, MTD1, FinalKernel, kernel);
    FineExpect(m4, MTD2, mtd2, Mtd2Changed);
    FineEnter(m4.Expect(MTD2, mtd2, Mtd2Changed), FINAL_READBACK_VERIFIED);
  }

  /** The same for stage 2. */
  lemma CoarseStage2RunIsFine(sha: Hasher, m: Machine, i: Stage2Images)
    requires !m.chip.fault.physical
    ensures Stage2Run(sha, FineMachine(m), i) == FineMachine(Stage2Run(sha, m, i))
  {
    if ValidStage2(i) {
      assert FineMachine(m).Content(MTD2) == m.Content(MTD2);
      hide ValidStage2, Machine.Enter, Machine.PassGates, SecureBackup, Stage2Write, FineMachine, Machine.Settle;
      FineEnter(m, DEVICE_VERIFIED);
      var m1 := m.Enter(DEVICE_VERIFIED);
      FineSecureBackup(sha, m1, i);
      FineGates(SecureBackup(sha, m1, i));
      var m2 := SecureBackup(sha, m1, i).PassGates();
      FineStage2Write(sha, m.Content(MTD2), m2, i);
      FineSettle(Stage2Write(sha, m.Content(MTD2), m2, i));
    }
  }

  /* Stock restore. */

  lemma FineStep(sha: Hasher, m: Machine, w: RegionWrite, written: Phase, verified: Phase)
    requires !m.chip.fault.physical
    ensures FineMachine(m).FlashStep(sha, w, written, verified) == FineMachine(m.FlashStep(sha, w, written, verified))
    ensures !m.FlashStep(sha, w, written, verified).chip.fault.physical
  {
    hide Machine.Enter, Machine.Flash, FineMachine;
    FineFlash(sha, m, w);
    FineEnter(m.Flash(sha, w), written);
    FineEnter(m.Flash(sha, w).Enter(written), verified);
  }

  lemma FineVerifyProtected(m: Machine, i: RestoreImages)
    requires ValidRestore(i) && !m.chip.fault.physical
    ensures VerifyProtected(FineMachine(m), i) == FineMachine(VerifyProtected(m, i))
    ensures !VerifyProtected(m, i).chip.fault.physical
  {
    var a, b, c := i.protected[0], i.protected[1], i.protected[2];
    hide ValidRestore, Machine.Expect, FineMachine;
    FineExpect(m, MTD0, a, ProtectedDiffers);
    var m1 := m.Expect(MTD0, a, ProtectedDiffers);
    FineExpect(m1, MTD4, b, ProtectedDiffers);
    FineExpect(m1.Expect(MTD4, b, ProtectedDiffers), MTD5, c, ProtectedDiffers);
  }

  lemma FineRestoreAll(sha: Hasher, m: Machine, i: RestoreImages)
    requires ValidRestore(i) && !m.chip.fault.physical
    ensures RestoreAll(sha, FineMachine(m), i) == FineMachine(RestoreAll(sha, m, i))
    ensures !RestoreAll(sha, m, i).chip.fault.physical
  {
    var ws := RestoreWrites(i);
    hide ValidRestore, RestoreWrites, Machine.Enter, Machine.FlashStep, VerifyProtected, FineMachine;
    FineVerifyProtected(m, i);
    var m0 := VerifyProtected(m, i);
    FineEnter(m0, SAME_DEVICE_VERIFIED);
    FineEnter(m0.Enter(SAME_DEVICE_VERIFIED), RESTORE_IMAGES_VALIDATED);
    FineEnter(m0.Enter(SAME_DEVICE_VERIFIED).Enter(RESTORE_IMAGES_VALIDATED), RESTORE_PREPARED);
    var m1 := PrepareRestore(m, i);
    FineStep(sha, m1, ws[0], MTD3_WRITTEN, MTD3_READBACK_VERIFIED);
    var m2 := m1.FlashStep(sha, ws[0], MTD3_WRITTEN, MTD3_READBACK_VERIFIED);
    FineStep(sha, m2, ws[1], MTD2_WRITTEN, MTD2_READBACK_VERIFIED);
    var m3 := m2.FlashStep(sha, ws[1], MTD2_WRITTEN, MTD2_READBACK_VERIFIED);
    FineStep(sha, m3, ws[2], MTD1_TAIL_WRITTEN, MTD1_TAIL_READBACK_VERIFIED);
    var m4 := m3.FlashStep(sha, ws[2], MTD1_TAIL_WRITTEN, MTD1_TAIL_READBACK_VERIFIED);
    FineStep(sha, m4, ws[3], STOCK_ACTIVATION_WRITTEN, STOCK_ACTIVATION_READBACK_VERIFIED);
  }

  lemma FineCompareStock(m: Machine, i: RestoreImages)
    requires !m.chip.fault.physical
    ensures CompareStock(FineMachine(m), i) == FineMachine(CompareStock(m, i))
    ensures !CompareStock(m, i).chip.fault.physical
  {
    hide Machine.Read, Machine.Expect, FineMachine;
    FineRead(m, MTD1, StockFull(1));
    FineExpect(m.Read(MTD1, StockFull(1)), MTD1, i.mtd1, ReadbackMismatch);
    var m1 := m.Read(MTD1, StockFull(1)).Expect(MTD1, i.mtd1, ReadbackMismatch);
    FineRead(m1, MTD2, StockFull(2));
    FineExpect(m1.Read(MTD2, StockFull(2)), MTD2, i.mtd2, ReadbackMismatch);
    var m2 := m1.Read(MTD2, StockFull(2)).Expect(MTD2, i.mtd2, ReadbackMismatch);
    FineRead(m2, MTD3, StockFull(3));
    FineExpect(m2.Read(MTD3, StockFull(3)), MTD3, i.mtd3, ReadbackMismatch);
  }

  lemma FineRestoreCheck(m: Machine, i: RestoreImages)
    requires ValidRestore(i) && !m.chip.fault.physical
    ensures RestoreCheck(FineMachine(m), i) == FineMachine(RestoreCheck(m, i))
    ensures !RestoreCheck(m, i).chip.fault.physical
  {
    FineCompareStock(m, i);
    FineVerifyProtected(CompareStock(m, i), i);
    hide ValidRestore, CompareStock, VerifyProtected;
  }

  /** The same for a stock restore. */
  lemma CoarseRestoreRunIsFine(sha: Hasher, m: Machine, i: RestoreImages)
    requires !m.chip.fault.physical
    ensures RestoreRun(sha, FineMachine(m), i) == FineMachine(RestoreRun(sha, m, i))
  {
    if ValidRestore(i) {
      hide ValidRestore, Machine.Enter, RestoreAll, RestoreCheck, FineMachine, Machine.Settle;
      FineRestoreAll(sha, m, i);
      FineRestoreCheck(RestoreAll(sha, m, i), i);
      var m1 := RestoreCheck(RestoreAll(sha, m, i), i);
      FineEnter(m1, STOCK_FULL_READBACK_VERIFIED);
      FineEnter(m1.Enter(STOCK_FULL_READBACK_VERIFIED), STOCK_RESTORE_COMPLETE);
      FineSettle(m1.Enter(STOCK_FULL_READBACK_VERIFIED).Enter(STOCK_RESTORE_COMPLETE));
    }
  }
}
