/**
 * The three installers as functions from one machine state to the next, whatever the injected fault.
 * A step does nothing once power is lost or an error has been raised, as the rest of a Python `try` body would.
 */
module Installers {
  import opened Common
  import opened Layout
  import opened Nor
  import opened Flashing
  import RecoveryCheckpoint

  datatype BackupStatus = Exported | Reused | InterruptedInstallRecovery | PreserveMode | FactoryResetMode

  datatype DataMode = Initialize | Preserve | FactoryReset | UnknownMode

  datatype FinalImages = FinalImages(systemOffset: int, systemSpan: int, system: Bytes,
                                     dataOffset: int, dataSpan: int, data: Bytes, rootfs: Bytes, kernel: Bytes)

  datatype Stage2Images = Stage2Images(systemOffset: int, systemSpan: int, system: Bytes,
                                       dataOffset: int, dataSpan: int, kernel: Bytes,
                                       mode: DataMode, provisioning: Bytes)

  datatype RestoreImages = RestoreImages(mtd1: Bytes, mtd2: Bytes, mtd3: Bytes, protected: seq<Bytes>,
                                         writeSet: seq<int>)

  /* ---- Which images are accepted ---- */

  predicate InMtd3(offset: int, span: int) {
    MTD3.offset <= offset && offset % ERASE_BLOCK == 0 && 0 < span && span % ERASE_BLOCK == 0 && offset + span <= MTD3.End()
  }

  predicate ValidFinal(i: FinalImages) {
    && ERASE_BLOCK < |i.kernel| <= MTD1.size
    && 0 < |i.rootfs| <= MTD2.size
    && InMtd3(i.systemOffset, i.systemSpan) && 0 < |i.system| <= i.systemSpan
    && InMtd3(i.dataOffset, i.dataSpan) && |i.data| <= i.dataSpan
    && (i.systemOffset + i.systemSpan <= i.dataOffset || i.dataOffset + i.dataSpan <= i.systemOffset)
  }

  predicate ValidStage2(i: Stage2Images) {
    && i.mode != UnknownMode
    && i.systemOffset == MTD3.offset && i.systemSpan == SYSTEM_SPAN
    && i.dataOffset == MTD3.offset + SYSTEM_SPAN && i.dataSpan == DATA_SPAN
    && (i.provisioning != [] ==> i.mode == Initialize && |i.provisioning| == i.dataSpan && [0x85, 0x19] <= i.provisioning)
    // The bootstrap root file system stays in place; any non-empty one would do here.
    && ValidFinal(FinalImages(i.systemOffset, i.systemSpan, i.system, i.dataOffset, i.dataSpan, [], [0], i.kernel))
  }

  /** Stock images of the exact partition sizes; what they contain is not part of this model. */
  predicate ValidRestore(i: RestoreImages) {
    && i.writeSet == [3, 2, 1]
    && |i.protected| == 3
    && |i.protected[0]| == MTD0.size && |i.protected[1]| == MTD4.size && |i.protected[2]| == MTD5.size
    && |i.mtd1| == MTD1.size && |i.mtd2| == MTD2.size && |i.mtd3| == MTD3.size
  }

  /* ---- What each of them writes, in order ---- */

  function KernelTail(kernel: Bytes, op: Op): RegionWrite
    requires ERASE_BLOCK <= |kernel|
  {
    RegionWrite(MTD1.offset + ERASE_BLOCK, MTD1.size - ERASE_BLOCK, kernel[ERASE_BLOCK..], op)
  }

  function ActivationBlock(kernel: Bytes, op: Op): RegionWrite
    requires ERASE_BLOCK <= |kernel|
  {
    RegionWrite(MTD1.offset, ERASE_BLOCK, kernel[..ERASE_BLOCK], op)
  }

  function FinalWrites(i: FinalImages): seq<RegionWrite>
    requires ValidFinal(i)
  {
    [ RegionWrite(i.dataOffset, i.dataSpan, i.data, FinalData),
      RegionWrite(i.systemOffset, i.systemSpan, i.system, FinalSystem),
      RegionWrite(MTD2.offset, MTD2.size, i.rootfs, FinalRootfs),
      KernelTail(i.kernel, FinalKernelTail),
      ActivationBlock(i.kernel, Activation) ]
  }

  function Stage2Writes(i: Stage2Images): seq<RegionWrite>
    requires ValidStage2(i)
  {
    (if i.mode == Preserve then [] else [ RegionWrite(i.dataOffset, i.dataSpan, i.provisioning, FinalData) ]) +
    [ RegionWrite(i.systemOffset, i.systemSpan, i.system, FinalSystem),
      KernelTail(i.kernel, FinalKernelTail),
      ActivationBlock(i.kernel, Activation) ]
  }

  function RestoreWrites(i: RestoreImages): seq<RegionWrite>
    requires ValidRestore(i)
  {
    [ RegionWrite(MTD3.offset, MTD3.size, i.mtd3, StockMtd3),
      RegionWrite(MTD2.offset, MTD2.size, i.mtd2, StockMtd2),
      KernelTail(i.mtd1, StockMtd1Tail),
      ActivationBlock(i.mtd1, StockActivation) ]
  }

  /* ---- The state machine ---- */

  // The installer's first five states belong to the stock firmware and to the SD card.
  const INSTALLER_BOOTED := Install(5)
  const DEVICE_VERIFIED := Install(6)
  const STOCK_BACKUP_COMPLETE := Install(7)
  const STOCK_BACKUP_VERIFIED := Install(8)
  const RECOVERY_CHECKPOINT_VERIFIED := Install(9)
  const FINAL_BUNDLE_VERIFIED := Install(10)
  const RAM_RESIDENT_INSTALL_MODE := Install(11)
  const FINAL_DATA_WRITTEN := Install(12)
  const FINAL_ROOTFS_WRITTEN := Install(13)
  const FINAL_KERNEL_WRITTEN := Install(14)
  const ACTIVATION_WRITTEN := Install(15)
  const FINAL_READBACK_VERIFIED := Install(16)
  const THINGINO_BOOTED := Install(17)

  const BACKUP_VALIDATED := Restore(0)
  const SAME_DEVICE_VERIFIED := Restore(1)
  const RESTORE_IMAGES_VALIDATED := Restore(2)
  const RESTORE_PREPARED := Restore(3)
  const MTD3_WRITTEN := Restore(4)
  const MTD3_READBACK_VERIFIED := Restore(5)
  const MTD2_WRITTEN := Restore(6)
  const MTD2_READBACK_VERIFIED := Restore(7)
  const MTD1_TAIL_WRITTEN := Restore(8)
  const MTD1_TAIL_READBACK_VERIFIED := Restore(9)
  const STOCK_ACTIVATION_WRITTEN := Restore(10)
  const STOCK_ACTIVATION_READBACK_VERIFIED := Restore(11)
  const STOCK_FULL_READBACK_VERIFIED := Restore(12)
  const STOCK_RESTORE_COMPLETE := Restore(13)

  /** Each state has exactly one successor; the last ones and a failure have none. */
  function Next(p: Phase): Option<Phase> {
    match p
    case Install(k) => if k < THINGINO_BOOTED.step then Some(Install(k + 1)) else None
    case Restore(k) => if k < STOCK_RESTORE_COMPLETE.step then Some(Restore(k + 1)) else None
    case _ => None
  }

  /** One installer at one moment: the chip, its own state, and what it keeps on the SD card. */
  datatype Machine = Machine(chip: Chip, phase: Phase, backup: Option<Bytes>, status: Option<BackupStatus>,
                             checkpoint: Option<Bytes>)
  {
    predicate Live() { chip.outcome == Running }

    function Raise(e: MtdError): Machine {
      if Live() then this.(chip := chip.(outcome := Failed(e))) else this
    }

    function Reach(e: Event): Machine { this.(chip := Mark(chip, e)) }

    function Enter(next: Phase): Machine {
      var m := Reach(BeforeState(next));
      if !m.Live() then m
      else if Next(phase) != Some(next) then m.Raise(InvalidTransition)
      else m.(phase := next).Reach(AfterState(next))
    }

    ghost function Flash(sha: Hasher, w: RegionWrite): Machine {
      this.(chip := WriteAndVerify(sha, chip, w))
    }

    ghost function FlashStep(sha: Hasher, w: RegionWrite, written: Phase, verified: Phase): Machine {
      Flash(sha, w).Enter(written).Enter(verified)
    }

    function Read(p: Partition, op: Op): Machine {
      this.(chip := Readback(chip, p.offset, p.size, op))
    }

    /** The gates both installers pass between the backup and the first erase. */
    function PassGates(): Machine {
      Enter(STOCK_BACKUP_COMPLETE).Enter(STOCK_BACKUP_VERIFIED).Enter(RECOVERY_CHECKPOINT_VERIFIED)
        .Enter(FINAL_BUNDLE_VERIFIED).Enter(RAM_RESIDENT_INSTALL_MODE)
    }

    /** The kernel beyond its first block, then the block that activates it. */
    ghost function FlashKernel(sha: Hasher, tail: RegionWrite, block: RegionWrite): Machine {
      Flash(sha, tail).Enter(FINAL_KERNEL_WRITTEN).Flash(sha, block).Enter(ACTIVATION_WRITTEN)
    }

    /** Read a partition and compare digests with what it should hold. */
    function ReadAndVerify(sha: Hasher, p: Partition, op: Op, expected: Bytes): Machine {
      this.(chip := Verify(sha, Readback(chip, p.offset, p.size, op), p.offset, expected))
    }

    /** The `except` clauses: record the failure unless one is recorded already. */
    function Settle(): Machine {
      if Live() || phase.FailedPowerLoss? || phase.FailedWriteOrStateGate? then this
      else this.(phase := if chip.outcome == PowerLoss then FailedPowerLoss else FailedWriteOrStateGate)
    }

    function Content(p: Partition): Bytes {
      if p.End() <= |chip.flash| then chip.flash[p.offset..p.End()] else []
    }

    /** Raise `e` unless the partition holds exactly `expected`. */
    function Expect(p: Partition, expected: Bytes, e: MtdError): Machine {
      if Content(p) != expected then Raise(e) else this
    }
  }

  /* ---- FinalInstaller.run ---- */

  ghost function FinalWrite(sha: Hasher, m: Machine, i: FinalImages): Machine
    requires ValidFinal(i)
  {
    var ws := FinalWrites(i);
    m.Flash(sha, ws[0]).Flash(sha, ws[1]).Enter(FINAL_DATA_WRITTEN)
     .Flash(sha, ws[2]).Enter(FINAL_ROOTFS_WRITTEN)
     .FlashKernel(sha, ws[3], ws[4])
  }

  ghost function FinalRun(sha: Hasher, m: Machine, i: FinalImages): Machine {
    if !ValidFinal(i) then m.Raise(InvalidImages)
    else
      FinalWrite(sha, m.Enter(DEVICE_VERIFIED).PassGates(), i)
        .ReadAndVerify(sha, MTD1, FinalKernel, Padded(i.kernel, MTD1.size)).Enter(FINAL_READBACK_VERIFIED)
        .Settle()
  }

  /* ---- OfflineStage2Installer.run ---- */

  /** Read mtd3 into the backup; a cut at either readback event leaves no backup. */
  function TakeBackup(m: Machine): Machine {
    var r := m.Read(MTD3, UserdataBackup);
    if r.Live() then r.(backup := Some(r.Content(MTD3))) else r
  }

  function WriteCheckpoint(m: Machine, record: Bytes, status: BackupStatus): Machine {
    var before := m.Reach(BeforeWriteCheckpoint);
    if !before.Live() then before
    else
      var after := before.(checkpoint := Some(record)).Reach(AfterWriteCheckpoint);
      if after.Live() then after.(status := Some(status)) else after
  }

  function RequireCheckpoint(m: Machine, record: Bytes): Machine {
    var before := m.Reach(BeforeReadCheckpoint);
    if !before.Live() then before
    else if before.checkpoint != Some(record) then before.Raise(CheckpointMismatch)
    else
      var after := before.Reach(AfterReadCheckpoint);
      if after.Live() then after.(status := Some(InterruptedInstallRecovery)) else after
  }

  /** The record stage 2 expects beside the backup it holds. */
  function ExpectedRecord(sha: Hasher, i: Stage2Images, backup: Bytes): Bytes
    requires ValidStage2(i) && |backup| == MTD3.size
  {
    RecoveryCheckpoint.Record(sha, backup, i.kernel, i.system, i.provisioning)
  }

  /** Make sure a backup of the stock mtd3 and its checkpoint exist before anything is erased. */
  function SecureBackup(sha: Hasher, m: Machine, i: Stage2Images): Machine
    requires ValidStage2(i)
  {
    if !m.Live() then m
    else if i.mode == Preserve then m.(status := Some(PreserveMode))
    else if i.mode == FactoryReset then m.(status := Some(FactoryResetMode))
    else
      var status := if m.backup.None? then Exported else Reused;
      var taken := if m.backup.None? then TakeBackup(m) else m;
      if !taken.Live() || taken.backup.None? then taken
      else if |taken.backup.value| != MTD3.size then taken.Raise(BackupSizeMismatch)
      else
        var record := ExpectedRecord(sha, i, taken.backup.value);
        var r := taken.Read(MTD3, UserdataBackupVerify);
        if !r.Live() then r
        else if r.Content(MTD3) == r.backup.value then WriteCheckpoint(r, record, status)
        else RequireCheckpoint(r, record)
  }

  /** Replace the data region, or read it a second time and require that it has not changed. */
  ghost function SettleData(sha: Hasher, m: Machine, i: Stage2Images): Machine
    requires ValidStage2(i)
  {
    var region := Partition(i.dataOffset, i.dataSpan);
    var before := m.Read(region, DataBefore);
    if i.mode == Preserve
    then before.Read(region, DataPreserved).Expect(region, before.Content(region), PreservedDataChanged)
    else before.Flash(sha, Stage2Writes(i)[0])
  }

  /** Everything stage 2 writes, then its closing checks; `mtd2` is what the bootstrap partition held at the start. */
  ghost function Stage2Write(sha: Hasher, mtd2: Bytes, m: Machine, i: Stage2Images): Machine
    requires ValidStage2(i)
  {
    var ws := Stage2Writes(i);
    SettleData(sha, m, i).Enter(FINAL_DATA_WRITTEN)
      .Flash(sha, ws[|ws| - 3]).Enter(FINAL_ROOTFS_WRITTEN)
      .FlashKernel(sha, ws[|ws| - 2], ws[|ws| - 1])
      .ReadAndVerify(sha, MTD1, FinalKernel, Padded(i.kernel, MTD1.size))
      .Expect(MTD2, mtd2, Mtd2Changed).Enter(FINAL_READBACK_VERIFIED)
  }

  ghost function Stage2Run(sha: Hasher, m: Machine, i: Stage2Images): Machine {
    if !ValidStage2(i) then m.Raise(InvalidImages)
    else Stage2Write(sha, m.Content(MTD2), SecureBackup(sha, m.Enter(DEVICE_VERIFIED), i).PassGates(), i).Settle()
  }

  /* ---- StockRestoreInstaller.run ---- */

  function VerifyProtected(m: Machine, i: RestoreImages): Machine
    requires ValidRestore(i)
  {
    m.Expect(MTD0, i.protected[0], ProtectedDiffers).Expect(MTD4, i.protected[1], ProtectedDiffers)
     .Expect(MTD5, i.protected[2], ProtectedDiffers)
  }

  function PrepareRestore(m: Machine, i: RestoreImages): Machine
    requires ValidRestore(i)
  {
    VerifyProtected(m, i).Enter(SAME_DEVICE_VERIFIED).Enter(RESTORE_IMAGES_VALIDATED).Enter(RESTORE_PREPARED)
  }

  /** The user data and the root file system, each write followed by its two transitions. */
  ghost function RestoreUserAndRoot(sha: Hasher, m: Machine, i: RestoreImages): Machine
    requires ValidRestore(i)
  {
    m.FlashStep(sha, RestoreWrites(i)[0], MTD3_WRITTEN, MTD3_READBACK_VERIFIED)
     .FlashStep(sha, RestoreWrites(i)[1], MTD2_WRITTEN, MTD2_READBACK_VERIFIED)
  }

  /** The kernel, its activation block last. */
  ghost function RestoreKernel(sha: Hasher, m: Machine, i: RestoreImages): Machine
    requires ValidRestore(i)
  {
    m.FlashStep(sha, RestoreWrites(i)[2], MTD1_TAIL_WRITTEN, MTD1_TAIL_READBACK_VERIFIED)
     .FlashStep(sha, RestoreWrites(i)[3], STOCK_ACTIVATION_WRITTEN, STOCK_ACTIVATION_READBACK_VERIFIED)
  }

  /** A restore up to and including its last write. */
  ghost function RestoreAll(sha: Hasher, m: Machine, i: RestoreImages): Machine
    requires ValidRestore(i)
  {
    RestoreKernel(sha, RestoreUserAndRoot(sha, PrepareRestore(m, i), i), i)
  }

  function CompareStock(m: Machine, i: RestoreImages): Machine {
    m.Read(MTD1, StockFull(1)).Expect(MTD1, i.mtd1, ReadbackMismatch)
     .Read(MTD2, StockFull(2)).Expect(MTD2, i.mtd2, ReadbackMismatch)
     .Read(MTD3, StockFull(3)).Expect(MTD3, i.mtd3, ReadbackMismatch)
  }

  /** The closing readback of everything that was and was not to change. */
  function RestoreCheck(m: Machine, i: RestoreImages): Machine
    requires ValidRestore(i)
  {
    var checked := VerifyProtected(CompareStock(m, i), i);
    if checked.chip.flash != m.chip.flash then checked.Raise(FlashChanged) else checked
  }

  ghost function RestoreRun(sha: Hasher, m: Machine, i: RestoreImages): Machine {
    if !ValidRestore(i) then m.Raise(InvalidImages).Settle()
    else
      RestoreCheck(RestoreAll(sha, m, i), i)
        .Enter(STOCK_FULL_READBACK_VERIFIED).Enter(STOCK_RESTORE_COMPLETE).Settle()
  }
}
