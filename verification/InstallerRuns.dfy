/** The installers as installer/fake_mtd.py runs them: an object that drives a chip, step after step. */
module InstallerRuns {
  import opened Common
  import opened Layout
  import opened Nor
  import opened Flashing
  import opened Installers
  import RecoveryCheckpoint

  /**
   * FinalInstaller and the two installers derived from it. A raised exception skips the rest of a run, so
   * every step is handed the outcome so far and does nothing unless that is still Running.
   */
  class Installer {
    const nor: FakeNor
    const sha: Hasher
    var phase: Phase
    var backup: Option<Bytes>
    var status: Option<BackupStatus>
    var checkpoint: Option<Bytes>

    ghost function View(o: Outcome): Machine
      reads this, nor.contents
    {
      Machine(nor.View(o), phase, backup, status, checkpoint)
    }

    constructor (nor: FakeNor, sha: Hasher, phase: Phase, backup: Option<Bytes>, checkpoint: Option<Bytes>)
      ensures this.nor == nor && this.sha == sha
      ensures View(Running) == Machine(nor.View(Running), phase, backup, None, checkpoint)
    {
      this.nor := nor;
      this.sha := sha;
      this.phase := phase;
      this.backup := backup;
      this.status := None;
      this.checkpoint := checkpoint;
    }

    method Checkpoint(before: Outcome, e: Event) returns (o: Outcome)
      ensures View(o) == View(before).Reach(e)
    {
      o := before;
      if o == Running {
        o := nor.Checkpoint(e);
      }
    }

    method Transition(before: Outcome, next: Phase) returns (o: Outcome)
      modifies this`phase
      ensures View(o) == old(View(before)).Enter(next)
    {
      o := Checkpoint(before, BeforeState(next));
      if o == Running {
        if Next(phase) != Some(next) {
          return Failed(InvalidTransition);
        }
        phase := next;
        o := Checkpoint(o, AfterState(next));
      }
    }

    method WriteAndCheck(before: Outcome, w: RegionWrite) returns (o: Outcome)
      modifies nor.contents
      ensures View(o) == old(View(before)).Flash(sha, w)
    {
      if before != Running {
        return before;
      }
      if |w.payload| > w.span {
        return Failed(ExceedsSpan);
      }
      hide Erase, Write, Put;
      o := nor.EraseRange(w.offset, w.span, w.op);
      var paged := PagePadded(w.payload);
      if o == Running && paged != [] {
        o := nor.WriteRange(w.offset, paged, w.op);
      }
      if o == Running {
        o := ReadBack(w.offset, w.span, w.op, Padded(w.payload, w.span));
      }
    }

    /** Read a range and compare its digest with the expected one. */
    method ReadBack(offset: int, span: nat, op: Op, expected: Bytes) returns (o: Outcome)
      requires |expected| == span
      ensures View(o).chip == Verify(sha, Readback(View(Running).chip, offset, span, op), offset, expected)
    {
      var actual;
      actual, o := nor.Read(offset, span, op);
      if o == Running && sha(actual) != sha(expected) {
        o := Failed(ReadbackMismatch);
      }
    }

    /** The `except` clauses. */
    method Conclude(o: Outcome)
      modifies this`phase
      ensures View(o) == old(View(o)).Settle()
    {
      if o != Running && !phase.FailedPowerLoss? && !phase.FailedWriteOrStateGate? {
        phase := if o == PowerLoss then FailedPowerLoss else FailedWriteOrStateGate;
      }
    }

    method PassGates(before: Outcome) returns (o: Outcome)
      modifies this`phase
      ensures View(o) == old(View(before)).PassGates()
    {
      hide Machine.Enter;
      o := Transition(before, STOCK_BACKUP_COMPLETE);
      o := Transition(o, STOCK_BACKUP_VERIFIED);
      o := Transition(o, RECOVERY_CHECKPOINT_VERIFIED);
      o := Transition(o, FINAL_BUNDLE_VERIFIED);
      o := Transition(o, RAM_RESIDENT_INSTALL_MODE);
    }

    method FlashKernel(before: Outcome, tail: RegionWrite, block: RegionWrite) returns (o: Outcome)
      modifies this`phase, nor.contents
      ensures View(o) == old(View(before)).FlashKernel(sha, tail, block)
    {
      hide Machine.Enter, Machine.Flash;
      o := WriteAndCheck(before, tail);
      o := Transition(o, FINAL_KERNEL_WRITTEN);
      o := WriteAndCheck(o, block);
      o := Transition(o, ACTIVATION_WRITTEN);
    }

    method CheckKernel(before: Outcome, kernel: Bytes) returns (o: Outcome)
      requires |kernel| <= MTD1.size
      ensures View(o) == View(before).ReadAndVerify(sha, MTD1, FinalKernel, Padded(kernel, MTD1.size))
    {
      o := before;
      if o == Running {
        o := ReadBack(MTD1.offset, MTD1.size, FinalKernel, Padded(kernel, MTD1.size));
      }
    }

    /** FinalInstaller.run */
    method RunFinal(i: FinalImages) returns (o: Outcome)
      modifies this`phase, nor.contents
      ensures View(o) == FinalRun(sha, old(View(Running)), i)
    {
      if !ValidFinal(i) {
        return Failed(InvalidImages);
      }
      var ws := FinalWrites(i);
      hide Machine.Enter, Machine.Flash, Machine.PassGates, Machine.FlashKernel, Machine.ReadAndVerify, Machine.Settle,
           FinalWrites, ValidFinal;
      o := Transition(Running, DEVICE_VERIFIED);
      o := PassGates(o);
      o := WriteAndCheck(o, ws[0]);
      o := WriteAndCheck(o, ws[1]);
      o := Transition(o, FINAL_DATA_WRITTEN);
      o := WriteAndCheck(o, ws[2]);
      o := Transition(o, FINAL_ROOTFS_WRITTEN);
      o := FlashKernel(o, ws[3], ws[4]);
      o := CheckKernel(o, i.kernel);
      o := Transition(o, FINAL_READBACK_VERIFIED);
      Conclude(o);
    }

    /* ---- OfflineStage2Installer ---- */

    method ReadPartition(before: Outcome, p: Partition, op: Op) returns (data: Bytes, o: Outcome)
      ensures View(o) == View(before).Read(p, op)
      ensures o == Running ==> data == View(o).Content(p)
    {
      data, o := [], before;
      if o == Running {
        data, o := nor.Read(p.offset, p.size, op);
      }
    }

    method TakeBackup() returns (o: Outcome)
      modifies this`backup
      ensures View(o) == Installers.TakeBackup(old(View(Running)))
    {
      var data;
      data, o := ReadPartition(Running, MTD3, UserdataBackup);
      if o == Running {
        backup := Some(data);
      }
    }

    method WriteCheckpoint(record: Bytes, newStatus: BackupStatus) returns (o: Outcome)
      modifies this`checkpoint, this`status
      ensures View(o) == Installers.WriteCheckpoint(old(View(Running)), record, newStatus)
    {
      o := Checkpoint(Running, BeforeWriteCheckpoint);
      if o == Running {
        checkpoint := Some(record);
        o := Checkpoint(o, AfterWriteCheckpoint);
        if o == Running {
          status := Some(newStatus);
        }
      }
    }

    method RequireCheckpoint(record: Bytes) returns (o: Outcome)
      modifies this`status
      ensures View(o) == Installers.RequireCheckpoint(old(View(Running)), record)
    {
      o := Checkpoint(Running, BeforeReadCheckpoint);
      if o == Running {
        if checkpoint != Some(record) {
          return Failed(CheckpointMismatch);
        }
        o := Checkpoint(o, AfterReadCheckpoint);
        if o == Running {
          status := Some(InterruptedInstallRecovery);
        }
      }
    }

    method SecureBackup(before: Outcome, i: Stage2Images) returns (o: Outcome)
      requires ValidStage2(i)
      modifies this`backup, this`checkpoint, this`status
      ensures View(o) == Installers.SecureBackup(sha, old(View(before)), i)
    {
      assert i.mode != UnknownMode;
      hide RecoveryCheckpoint.Record, ValidStage2, Installers.WriteCheckpoint, Installers.RequireCheckpoint;
      o := before;
      if o != Running { return; }
      if i.mode == Initialize {
        var newStatus := Reused;
        if backup.None? {
          o := TakeBackup();
          if o != Running { return; }
          newStatus := Exported;
        }
        if |backup.value| != MTD3.size {
          return Failed(BackupSizeMismatch);
        }
        var current;
        current, o := ReadPartition(o, MTD3, UserdataBackupVerify);
        if o != Running { return; }
        var record := ExpectedRecord(sha, i, backup.value);
        if current == backup.value {
          o := WriteCheckpoint(record, newStatus);
        } else {
          o := RequireCheckpoint(record);
        }
      } else {
        status := Some(if i.mode == Preserve then PreserveMode else FactoryResetMode);
      }
    }

    method SettleData(before: Outcome, i: Stage2Images) returns (o: Outcome)
      requires ValidStage2(i)
      modifies nor.contents
      ensures View(o) == Installers.SettleData(sha, old(View(before)), i)
    {
      var region := Partition(i.dataOffset, i.dataSpan);
      var dataBefore;
      dataBefore, o := ReadPartition(before, region, DataBefore);
      if i.mode != Preserve {
        hide Machine.Flash;
        o := WriteAndCheck(o, Stage2Writes(i)[0]);
      } else if o == Running {
        var data;
        data, o := ReadPartition(o, region, DataPreserved);
        if o == Running && data != dataBefore {
          o := Failed(PreservedDataChanged);
        }
      }
    }

    /** OfflineStage2Installer.run */
    method RunStage2(i: Stage2Images) returns (o: Outcome)
      requires nor.contents.Length == NOR_SIZE
      modifies this, nor.contents
      ensures View(o) == Stage2Run(sha, old(View(Running)), i)
    {
      if !ValidStage2(i) {
        return Failed(InvalidImages);
      }
      var preservedMtd2 := nor.contents[MTD2.offset..MTD2.End()];
      var ws := Stage2Writes(i);
      hide Machine.Enter, Machine.Flash, Machine.PassGates, Machine.FlashKernel, Machine.ReadAndVerify, Machine.Settle,
           Installers.SecureBackup, Installers.SettleData, Stage2Writes, ValidStage2;
      o := Transition(Running, DEVICE_VERIFIED);
      o := SecureBackup(o, i);
      o := PassGates(o);
      o := SettleData(o, i);
      o := Transition(o, FINAL_DATA_WRITTEN);
      o := WriteAndCheck(o, ws[|ws| - 3]);
      o := Transition(o, FINAL_ROOTFS_WRITTEN);
      o := FlashKernel(o, ws[|ws| - 2], ws[|ws| - 1]);
      o := CheckKernel(o, i.kernel);
      o := ExpectPartition(o, MTD2, preservedMtd2, Mtd2Changed);
      o := Transition(o, FINAL_READBACK_VERIFIED);
      Conclude(o);
    }

    method ExpectPartition(before: Outcome, p: Partition, expected: Bytes, e: MtdError) returns (o: Outcome)
      requires p.End() <= nor.contents.Length
      ensures View(o) == View(before).Expect(p, expected, e)
    {
      o := before;
      if o == Running && nor.contents[p.offset..p.End()] != expected {
        o := Failed(e);
      }
    }

    /* ---- StockRestoreInstaller ---- */

    method VerifyProtected(before: Outcome, i: RestoreImages) returns (o: Outcome)
      requires ValidRestore(i) && nor.contents.Length == NOR_SIZE
      ensures View(o) == Installers.VerifyProtected(View(before), i)
    {
      hide Machine.Expect;
      o := ExpectPartition(before, MTD0, i.protected[0], ProtectedDiffers);
      o := ExpectPartition(o, MTD4, i.protected[1], ProtectedDiffers);
      o := ExpectPartition(o, MTD5, i.protected[2], ProtectedDiffers);
    }

    method WriteStep(before: Outcome, w: RegionWrite, written: Phase, verified: Phase) returns (o: Outcome)
      modifies this`phase, nor.contents
      ensures View(o) == old(View(before)).FlashStep(sha, w, written, verified)
    {
      hide Machine.Enter, Machine.Flash;
      o := WriteAndCheck(before, w);
      o := Transition(o, written);
      o := Transition(o, verified);
    }

    method ComparePartition(before: Outcome, p: Partition, op: Op, expected: Bytes) returns (o: Outcome)
      ensures View(o) == View(before).Read(p, op).Expect(p, expected, ReadbackMismatch)
    {
      var actual;
      actual, o := ReadPartition(before, p, op);
      if o == Running && actual != expected {
        o := Failed(ReadbackMismatch);
      }
    }

    method RestoreCheck(before: Outcome, i: RestoreImages) returns (o: Outcome)
      requires ValidRestore(i) && nor.contents.Length == NOR_SIZE
      ensures View(o) == Installers.RestoreCheck(View(before), i)
    {
      ghost var snapshot := nor.contents[..];
      o := ComparePartition(before, MTD1, StockFull(1), i.mtd1);
      o := ComparePartition(o, MTD2, StockFull(2), i.mtd2);
      o := ComparePartition(o, MTD3, StockFull(3), i.mtd3);
      hide Machine.Read, Machine.Expect;
      o := VerifyProtected(o, i);
      // Nothing above writes, so the comparison of two snapshots in StockRestoreInstaller.run cannot fail.
      assert nor.contents[..] == snapshot;
    }

    /** StockRestoreInstaller.run */
    method RunRestore(i: RestoreImages) returns (o: Outcome)
      requires nor.contents.Length == NOR_SIZE
      modifies this`phase, nor.contents
      ensures View(o) == RestoreRun(sha, old(View(Running)), i)
    {
      if !ValidRestore(i) {
        o := Failed(InvalidImages);
        Conclude(o);
        return;
      }
      var ws := RestoreWrites(i);
      hide Machine.Enter, Machine.FlashStep, Machine.Settle, Installers.VerifyProtected, Installers.RestoreCheck,
           RestoreWrites, ValidRestore;
      o := VerifyProtected(Running, i);
      o := Transition(o, SAME_DEVICE_VERIFIED);
      o := Transition(o, RESTORE_IMAGES_VALIDATED);
      o := Transition(o, RESTORE_PREPARED);
      o := WriteStep(o, ws[0], MTD3_WRITTEN, MTD3_READBACK_VERIFIED);
      o := WriteStep(o, ws[1], MTD2_WRITTEN, MTD2_READBACK_VERIFIED);
      o := WriteStep(o, ws[2], MTD1_TAIL_WRITTEN, MTD1_TAIL_READBACK_VERIFIED);
      o := WriteStep(o, ws[3], STOCK_ACTIVATION_WRITTEN, STOCK_ACTIVATION_READBACK_VERIFIED);
      o := RestoreCheck(o, i);
      o := Transition(o, STOCK_FULL_READBACK_VERIFIED);
      o := Transition(o, STOCK_RESTORE_COMPLETE);
      Conclude(o);
    }
  }
}
