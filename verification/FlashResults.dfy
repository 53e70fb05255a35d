/** What a completed run of each installer leaves on the chip and on the card, told by the images alone. */
module FlashResults {
  import opened Common
  import opened Layout
  import opened Nor
  import opened Flashing
  import opened Installers
  import opened FlashSafety
  import opened FlashClaims
  import opened RecoveryCheckpoint

  /** The flash from `at` on: these bytes, and 0xff up to the end of the span. */
  ghost predicate Filled(flash: Bytes, at: int, span: int, payload: Bytes) {
    && 0 <= at && |payload| <= span && at + span <= |flash|
    && flash[at..at + |payload|] == payload && forall k | at + |payload| <= k < at + span :: flash[k] == 0xff
  }

  ghost predicate SameBytes(c: Bytes, d: Bytes, at: int, span: int) {
    |c| == |d| && forall k | 0 <= k < |c| && at <= k < at + span :: d[k] == c[k]
  }

  lemma PaddedFills(flash: Bytes, at: nat, span: nat, payload: Bytes)
    requires |payload| <= span && at + span <= |flash| && flash[at..at + span] == Padded(payload, span)
    ensures Filled(flash, at, span, payload)
  {
    var slice := flash[at..at + span];
    assert slice[..|payload|] == payload && flash[at..at + |payload|] == slice[..|payload|];
    forall k | at + |payload| <= k < at + span ensures flash[k] == 0xff {
      assert slice[k - at] == flash[k] && slice[k - at] == 0xff;
    }
  }

  lemma RegionFilled(c: Bytes, ws: seq<RegionWrite>, j: nat)
    requires Plan(|c|, ws) && j < |ws|
    ensures Filled(Apply(c, ws), ws[j].offset, ws[j].span, ws[j].payload)
  {
    AppliedRegion(c, ws, j);
    assert ws[j].Valid(|c|);
    hide Plan, Apply, Padded;
    PaddedFills(Apply(c, ws), ws[j].offset, ws[j].span, ws[j].payload);
  }

  /** The tail and the activation block, as the last two regions of a plan, are the kernel. */
  lemma KernelFilled(c: Bytes, ws: seq<RegionWrite>, kernel: Bytes, tail: Op, block: Op)
    requires |c| == NOR_SIZE && Plan(|c|, ws) && |ws| >= 2 && ERASE_BLOCK < |kernel| <= MTD1.size
    requires ws[|ws| - 2] == KernelTail(kernel, tail) && ws[|ws| - 1] == ActivationBlock(kernel, block)
    ensures Filled(Apply(c, ws), MTD1.offset, MTD1.size, kernel)
  {
    AppliedRegion(c, ws, |ws| - 2);
    AppliedRegion(c, ws, |ws| - 1);
    hide Plan, Apply, Padded;
    KernelWhole(kernel, Apply(c, ws), ws[|ws| - 2], ws[|ws| - 1]);
    PaddedFills(Apply(c, ws), MTD1.offset, MTD1.size, kernel);
  }

  lemma Apart(c: Bytes, ws: seq<RegionWrite>, at: int, span: int)
    requires Plan(|c|, ws) && forall w <- ws :: w.End() <= at || at + span <= w.offset
    ensures SameBytes(c, Apply(c, ws), at, span)
  {
    hide Plan, Apply;
    forall k: nat | k < |c| && at <= k < at + span ensures Apply(c, ws)[k] == c[k] {
      assert Untouched(ws, k);
      AppliedOutside(c, ws, k);
    }
  }

  /* ---- The final install ---- */

  /** The checks of the final images, in bytes. */
  predicate FinalFits(i: FinalImages) {
    && 0x10000 < |i.kernel| <= 0x1C0000 && 0 < |i.rootfs| <= 0x480000
    && RegionFits(i.systemOffset, i.systemSpan) && 0 < |i.system| <= i.systemSpan
    && RegionFits(i.dataOffset, i.dataSpan) && |i.data| <= i.dataSpan
    && (i.systemOffset + i.systemSpan <= i.dataOffset || i.dataOffset + i.dataSpan <= i.systemOffset)
  }

  /** Whole erase blocks inside mtd3. */
  predicate RegionFits(offset: int, span: int) {
    0x680000 <= offset && span > 0 && offset + span <= 0xE40000 && offset % 0x10000 == 0 && span % 0x10000 == 0
  }

  /** Kernel, root file system, system and data each in their place and padded with 0xff, and nothing else changed. */
  ghost predicate FinalLayout(i: FinalImages, c: Bytes, d: Bytes) {
    && Filled(d, 0x40000, 0x1C0000, i.kernel) && Filled(d, 0x200000, 0x480000, i.rootfs)
    && Filled(d, i.systemOffset, i.systemSpan, i.system) && Filled(d, i.dataOffset, i.dataSpan, i.data)
    && |d| == |c|
    && forall k | && 0 <= k < |c| && !(0x40000 <= k < 0x680000)
                  && !(i.systemOffset <= k < i.systemOffset + i.systemSpan)
                  && !(i.dataOffset <= k < i.dataOffset + i.dataSpan) :: d[k] == c[k]
  }

  lemma FinalFitsIsValid(i: FinalImages)
    ensures FinalFits(i) <==> ValidFinal(i)
  {
  }

  lemma FinalApplied(i: FinalImages, c: Bytes)
    requires ValidFinal(i) && |c| == NOR_SIZE && Plan(NOR_SIZE, FinalWrites(i))
    ensures FinalLayout(i, c, Apply(c, FinalWrites(i)))
  {
    var ws := FinalWrites(i);
    FinalRegions(i, c);
    hide Plan, Apply, FinalWrites, ValidFinal, Filled;
    forall k: nat | k < |c| && !(0x40000 <= k < 0x680000) && !(i.systemOffset <= k < i.systemOffset + i.systemSpan)
                    && !(i.dataOffset <= k < i.dataOffset + i.dataSpan)
      ensures Apply(c, ws)[k] == c[k]
    {
      FinalSpares(i, k);
      AppliedOutside(c, ws, k);
    }
  }

  lemma FinalRegions(i: FinalImages, c: Bytes)
    requires ValidFinal(i) && |c| == NOR_SIZE && Plan(NOR_SIZE, FinalWrites(i))
    ensures var d := Apply(c, FinalWrites(i));
            && Filled(d, 0x40000, 0x1C0000, i.kernel) && Filled(d, 0x200000, 0x480000, i.rootfs)
            && Filled(d, i.systemOffset, i.systemSpan, i.system) && Filled(d, i.dataOffset, i.dataSpan, i.data)
  {
    var ws := FinalWrites(i);
    hide Plan, Apply, Filled;
    RegionFilled(c, ws, 0);
    RegionFilled(c, ws, 1);
    RegionFilled(c, ws, 2);
    KernelFilled(c, ws, i.kernel, FinalKernelTail, Activation);
  }

  lemma FinalSpares(i: FinalImages, k: nat)
    requires ValidFinal(i) && !(0x40000 <= k < 0x680000) && !(i.systemOffset <= k < i.systemOffset + i.systemSpan)
    requires !(i.dataOffset <= k < i.dataOffset + i.dataSpan)
    ensures Untouched(FinalWrites(i), k)
  {
  }

  /**
   * A final install that completes leaves exactly these images on the chip; and without a fault it completes exactly if
   * the images fit.
   */
  lemma FinalInstalled(sha: Hasher, m: Machine, i: FinalImages)
    requires |m.chip.flash| == NOR_SIZE && m.Live() && m.phase == INSTALLER_BOOTED
    ensures var r := FinalRun(sha, m, i);
            && (r.Live() ==> FinalLayout(i, m.chip.flash, r.chip.flash) && r.phase == FINAL_READBACK_VERIFIED)
            && (!FinalFits(i) ==> r.chip.outcome == Failed(InvalidImages) && r.chip.flash == m.chip.flash)
            && (m.chip.fault.failAt == None ==> (r.Live() <==> FinalFits(i)))
  {
    FinalFitsIsValid(i);
    hide FinalFits, FinalLayout;
    if ValidFinal(i) {
      FinalRunCuts(sha, m, i);
      FinalApplied(i, m.chip.flash);
      hide Plan, Apply, FinalWrites, ValidFinal, FinalRun;
    }
  }

  /* ---- Stage 2 ---- */

  /** The checks of the stage-2 images: the fixed regions of mtd3, and provisioning only for an initialization. */
  predicate Stage2Fits(i: Stage2Images) {
    && i.mode != UnknownMode && 0x10000 < |i.kernel| <= 0x1C0000
    && i.systemOffset == 0x680000 && i.systemSpan == 0x650000 && 0 < |i.system| <= i.systemSpan
    && i.dataOffset == 0xCD0000 && i.dataSpan == 0x170000
    && (i.provisioning != [] ==>
          i.mode == Initialize && |i.provisioning| == i.dataSpan && i.provisioning[0] == 0x85 && i.provisioning[1] == 0x19)
  }

  lemma Stage2FitsIsValid(i: Stage2Images)
    ensures Stage2Fits(i) <==> ValidStage2(i)
  {
    if |i.provisioning| >= 2 {
      assert i.provisioning[..2] == [i.provisioning[0], i.provisioning[1]];
    }
  }

  /** Kernel and system in their place, the data region kept or provisioned, and nothing else changed. */
  ghost predicate Stage2Layout(i: Stage2Images, c: Bytes, d: Bytes) {
    && Filled(d, 0x40000, 0x1C0000, i.kernel) && Filled(d, 0x680000, 0x650000, i.system)
    && (if i.mode == Preserve then SameBytes(c, d, 0xCD0000, 0x170000) else Filled(d, 0xCD0000, 0x170000, i.provisioning))
    && SameBytes(c, d, 0, 0x40000) && SameBytes(c, d, 0x200000, 0x480000) && SameBytes(c, d, 0xE40000, 0x1C0000)
  }

  /** The writes of stage 2, and what they stay clear of. */
  lemma Stage2Shape(i: Stage2Images)
    requires ValidStage2(i)
    ensures ERASE_BLOCK < |i.kernel| <= MTD1.size
    ensures var ws := Stage2Writes(i);
            var n := |ws|;
            && n >= 3 && ws[n - 2] == KernelTail(i.kernel, FinalKernelTail)
            && ws[n - 1] == ActivationBlock(i.kernel, Activation)
            && ws[n - 3] == RegionWrite(0x680000, 0x650000, i.system, FinalSystem)
            && (if i.mode == Preserve then n == 3 else ws[0] == RegionWrite(0xCD0000, 0x170000, i.provisioning, FinalData))
            && forall w <- ws ::
                 || (0x40000 <= w.offset && w.End() <= 0x200000)
                 || (0x680000 <= w.offset && w.End() <= if i.mode == Preserve then 0xCD0000 else 0xE40000)
  {
  }

  lemma Stage2Applied(i: Stage2Images, c: Bytes)
    requires ValidStage2(i) && |c| == NOR_SIZE && Plan(NOR_SIZE, Stage2Writes(i))
    ensures Stage2Layout(i, c, Apply(c, Stage2Writes(i)))
  {
    hide Plan, Apply, Filled, SameBytes, ValidStage2, Stage2Writes, KernelTail, ActivationBlock;
    var ws := Stage2Writes(i);
    Stage2Shape(i);
    KernelFilled(c, ws, i.kernel, FinalKernelTail, Activation);
    RegionFilled(c, ws, |ws| - 3);
    if i.mode == Preserve {
      Apart(c, ws, 0xCD0000, 0x170000);
    } else {
      RegionFilled(c, ws, 0);
    }
    Apart(c, ws, 0, 0x40000);
    Apart(c, ws, 0x200000, 0x480000);
    Apart(c, ws, 0xE40000, 0x1C0000);
  }

  /** A stage 2 that completes leaves exactly these images on the chip, whatever was on the card before. */
  lemma Stage2Installed(sha: Hasher, m: Machine, i: Stage2Images)
    requires |m.chip.flash| == NOR_SIZE && m.Live() && m.phase == INSTALLER_BOOTED
    ensures var r := Stage2Run(sha, m, i);
            && (r.Live() ==> Stage2Layout(i, m.chip.flash, r.chip.flash) && r.phase == FINAL_READBACK_VERIFIED)
            && (!Stage2Fits(i) ==> r.chip.outcome == Failed(InvalidImages) && r.chip.flash == m.chip.flash)
  {
    Stage2FitsIsValid(i);
    hide Stage2Fits, Stage2Layout;
    if ValidStage2(i) {
      hide Plan, Apply, Stage2Writes, ValidStage2, Stage2Run, Recoverable, CardStep, Secured;
      if Recoverable(sha, i, m.chip.flash, m.backup, m.checkpoint) {
        Stage2RunCuts(sha, m, i);
        Stage2Applied(i, m.chip.flash);
      } else {
        Stage2Refuses(sha, m, i);
      }
    }
  }

  /**
   * When an uncut stage 2 completes: if the images fit and, for an initialization, there is no backup yet or one of the
   * size of mtd3 that equals it or whose record for these images is the checkpoint.
   */
  lemma Stage2CompletesExactly(sha: Hasher, m: Machine, i: Stage2Images)
    requires |m.chip.flash| == NOR_SIZE && m.Live() && m.phase == INSTALLER_BOOTED && m.chip.fault.failAt == None
    ensures Stage2Run(sha, m, i).Live() <==>
              Stage2Fits(i)
              && (i.mode == Initialize && m.backup.Some? ==>
                    var backup := m.backup.value;
                    && |backup| == 0x7C0000
                    && (|| m.chip.flash[0x680000..0xE40000] == backup
                        || m.checkpoint == Some(Record(sha, backup, i.kernel, i.system, i.provisioning))))
    ensures !Stage2Run(sha, m, i).Live() && Stage2Fits(i) ==> Stage2Run(sha, m, i).phase == FailedWriteOrStateGate
  {
    Stage2FitsIsValid(i);
    Stage2SucceedsExactly(sha, m, i);
    hide Stage2Run, RecoveryCheckpoint.Record;
  }

  /** By mode; and for an initialization by what the card and the chip held at its start. */
  function HowBackedUp(mode: DataMode, flash: Bytes, backup: Option<Bytes>): BackupStatus
    requires |flash| == NOR_SIZE
  {
    if mode == Preserve then PreserveMode
    else if mode == FactoryReset then FactoryResetMode
    else if backup.None? then Exported
    else if flash[0x680000..0xE40000] == backup.value then Reused
    else InterruptedInstallRecovery
  }

  /** What the status of a completed stage 2 says of how the backup came about. */
  lemma StatusTells(sha: Hasher, m: Machine, i: Stage2Images)
    requires |m.chip.flash| == NOR_SIZE && m.Live() && m.phase == INSTALLER_BOOTED
    ensures Stage2Run(sha, m, i).Live() ==>
              Stage2Run(sha, m, i).status ==
              Some(HowBackedUp(i.mode, m.chip.flash, m.backup))
  {
    if ValidStage2(i) && Stage2Run(sha, m, i).Live() {
      var m1 := m.Enter(DEVICE_VERIFIED);
      CardAtEnd(sha, m, i);
      SecuredStatus(sha, m1, i);
      EnterKeepsCard(m, DEVICE_VERIFIED);
    }
  }

  lemma EnterKeepsCard(m: Machine, next: Phase)
    ensures SameCard(m, m.Enter(next)) && m.Enter(next).chip.flash == m.chip.flash
  {
  }

  lemma SecuredStatus(sha: Hasher, m: Machine, i: Stage2Images)
    requires ValidStage2(i) && |m.chip.flash| == NOR_SIZE && m.Live() && SecureBackup(sha, m, i).Live()
    ensures SecureBackup(sha, m, i).status ==
            Some(HowBackedUp(i.mode, m.chip.flash, m.backup))
  {
    hide RecoveryCheckpoint.Record;
  }

  /** Nothing after the backup is secured touches the card, and a run that completes was live by then. */
  lemma CardAtEnd(sha: Hasher, m: Machine, i: Stage2Images)
    requires ValidStage2(i) && |m.chip.flash| == NOR_SIZE && m.Live() && m.phase == INSTALLER_BOOTED
    requires Stage2Run(sha, m, i).Live()
    ensures m.Enter(DEVICE_VERIFIED).Live() && SecureBackup(sha, m.Enter(DEVICE_VERIFIED), i).Live()
    ensures SameCard(SecureBackup(sha, m.Enter(DEVICE_VERIFIED), i), Stage2Run(sha, m, i))
  {
    hide Plan, On, CardStep, Secured, Recoverable, Machine.Enter, SecureBackup, Machine.PassGates, Stage2Write,
         Stage2Writes, ValidStage2;
    Stage2Plan(i);
    var c, ws := m.chip.flash, Stage2Writes(i);
    OnStart(c, ws, m);
    OnEnter(c, ws, 0, INSTALLER_BOOTED, m, DEVICE_VERIFIED);
    EnterKeepsCard(m, DEVICE_VERIFIED);
    var m1 := m.Enter(DEVICE_VERIFIED);
    var m2 := SecureBackup(sha, m1, i);
    if !m1.Live() || !m2.Live() {
      HaltedSecure(sha, m1, i);
      HaltedStage2(sha, m.Content(MTD2), m2, i);
      assert false;
    }
    if !Recoverable(sha, i, c, m.backup, m.checkpoint) {
      Stage2Refuses(sha, m, i);
      assert false;
    }
    OnSecureBackup(sha, c, ws, m1, i);
    OnGates(c, ws, m2);
    OnStage2Write(sha, c, m2.PassGates(), i);
    var m3 := Stage2Write(sha, c[MTD2.offset..MTD2.End()], m2.PassGates(), i);
    SettleKeepsCard(m3);
  }

  lemma OnStart(c: Bytes, ws: seq<RegionWrite>, m: Machine)
    requires Plan(|c|, ws) && m.chip.flash == c && m.Live() && m.phase == INSTALLER_BOOTED
    ensures On(c, ws, 0, INSTALLER_BOOTED, m)
  {
    hide Plan;
  }

  lemma HaltedSecure(sha: Hasher, m: Machine, i: Stage2Images)
    requires ValidStage2(i)
    ensures !m.Live() ==> SecureBackup(sha, m, i) == m
  {
  }

  lemma SettleKeepsCard(m: Machine)
    ensures SameCard(m, m.Settle())
  {
  }

  /* ---- The stock restore ---- */

  /** The checks of the stock images: which partitions to write, and the size of each. */
  predicate RestoreFits(i: RestoreImages) {
    && i.writeSet == [3, 2, 1] && |i.protected| == 3
    && |i.protected[0]| == 0x40000 && |i.protected[1]| == 0x180000 && |i.protected[2]| == 0x40000
    && |i.mtd1| == 0x1C0000 && |i.mtd2| == 0x480000 && |i.mtd3| == 0x7C0000
  }

  /** The boot loader, mtd4 and mtd5 are those of this camera. */
  predicate SameCamera(i: RestoreImages, flash: Bytes)
    requires RestoreFits(i) && |flash| == NOR_SIZE
  {
    && flash[0x000000..0x040000] == i.protected[0] && flash[0xE40000..0xFC0000] == i.protected[1]
    && flash[0xFC0000..0x1000000] == i.protected[2]
  }

  /**
   * A restore that completes leaves the three stock images in their places and the rest as it was; without a fault it
   * completes exactly if the images fit and the camera is the same; and another camera is not touched.
   */
  lemma StockRestored(sha: Hasher, m: Machine, i: RestoreImages)
    requires |m.chip.flash| == NOR_SIZE && m.Live() && m.phase == BACKUP_VALIDATED
    ensures var r := RestoreRun(sha, m, i);
            && |r.chip.flash| == NOR_SIZE
            && (r.Live() ==>
                  && r.chip.flash[0x40000..0x200000] == i.mtd1 && r.chip.flash[0x200000..0x680000] == i.mtd2
                  && r.chip.flash[0x680000..0xE40000] == i.mtd3 && r.phase == STOCK_RESTORE_COMPLETE
                  && RestoreFits(i) && SameCamera(i, m.chip.flash) && SameCamera(i, r.chip.flash))
            && (!RestoreFits(i) ==> r.chip.outcome == Failed(InvalidImages) && r.chip.flash == m.chip.flash)
            && (RestoreFits(i) && !SameCamera(i, m.chip.flash) ==>
                  r.chip.outcome == Failed(ProtectedDiffers) && r.chip.flash == m.chip.flash
                  && r.phase == FailedWriteOrStateGate)
            && (m.chip.fault.failAt == None ==> (r.Live() <==> RestoreFits(i) && SameCamera(i, m.chip.flash)))
  {
    assert RestoreFits(i) <==> ValidRestore(i);
    hide RestoreFits;
    if ValidRestore(i) {
      assert SameCamera(i, m.chip.flash) <==> Protected(i, m.chip.flash);
      if Protected(i, m.chip.flash) {
        RestoreRunCuts(sha, m, i);
        EndedSize(m.chip.flash, RestoreWrites(i), STOCK_RESTORE_COMPLETE, RestoreRun(sha, m, i));
        RestoredChip(m.chip.flash, i);
        hide Plan, Apply, RestoreRun, RestoreWrites, ValidRestore, CutState;
      } else {
        RestoreRefuses(sha, m, i);
        hide RestoreRun, ValidRestore;
      }
    } else {
      hide ValidRestore;
    }
  }

  /* ---- The checkpoint, as the card tools see it ---- */

  /** Backup and checkpoint on the card are what the card tools accept beside this stage-2 file. */
  ghost predicate Accepted(sha: Hasher, i: Stage2Images, backup: Option<Bytes>, checkpoint: Option<Bytes>)
    requires |i.kernel| + |i.system| < 0x1_0000_0000
  {
    && backup.Some? && checkpoint.Some?
    && var stage2, x := i.kernel + i.system, checkpoint.value;
    && |backup.value| == 0x7C0000 && |x| == (if i.provisioning == [] then 80 else 144)
    && FromBe32(x[8..12]) == 0x7C0000 && x[16..48] == sha(backup.value)
    && FromBe32(x[12..16]) == |stage2| && x[48..80] == sha(stage2)
    && (i.provisioning != [] ==> x[112..144] == sha(i.provisioning))
    && (forall authorization, provisioning, unverified ::
          i.provisioning == [] ==> Accepts(sha, backup.value, x, stage2, authorization, provisioning, unverified))
    && (forall unverified ::
          i.provisioning != [] ==>
            Accepts(sha, backup.value, x, stage2, Some(ModeledAuthorization(sha, i.provisioning)), Some(i.provisioning),
                    unverified))
  }

  lemma RecordAccepted(sha: Hasher, i: Stage2Images, backup: Bytes)
    requires IsSha256(sha) && |i.kernel| + |i.system| < 0x1_0000_0000 && |backup| == 0x7C0000
    ensures Accepted(sha, i, Some(backup), Some(Record(sha, backup, i.kernel, i.system, i.provisioning)))
  {
    RecordForms(sha, backup, i.kernel, i.system, i.provisioning);
    RecordFields(sha, backup, i.kernel, i.system, i.provisioning);
    var x := Record(sha, backup, i.kernel, i.system, i.provisioning);
    if i.provisioning != [] {
      assert x[112..] == sha(i.provisioning) && x[112..144] == x[112..];
    }
    hide Be32, FromBe32, ModeledAuthorization;
  }

  lemma SecuredAccepted(sha: Hasher, i: Stage2Images, r: Machine)
    requires IsSha256(sha) && ValidStage2(i) && i.mode == Initialize && Secured(sha, i, r)
    ensures Accepted(sha, i, r.backup, r.checkpoint)
  {
    RecordAccepted(sha, i, r.backup.value);
    hide Accepted, RecoveryCheckpoint.Record;
  }

  lemma Secures(sha: Hasher, i: Stage2Images, m: Machine)
    requires ValidStage2(i) && |m.chip.flash| == NOR_SIZE && m.Live() && m.phase == INSTALLER_BOOTED
    ensures var r := Stage2Run(sha, m, i); r.Live() || r.chip.flash != m.chip.flash ==> Secured(sha, i, r)
  {
    hide Plan, Apply, Stage2Writes, ValidStage2, Stage2Run, Recoverable, CardStep, Secured;
    if Recoverable(sha, i, m.chip.flash, m.backup, m.checkpoint) {
      Stage2RunCuts(sha, m, i);
    } else {
      Stage2Refuses(sha, m, i);
    }
  }

  /** What a card that vouches for a changed chip still does after one more attempt. */
  lemma StaysSecured(sha: Hasher, i: Stage2Images, m: Machine)
    requires ValidStage2(i) && |m.chip.flash| == NOR_SIZE && m.Live() && m.phase == INSTALLER_BOOTED && i.mode == Initialize
    requires Secured(sha, i, m) && Recoverable(sha, i, m.chip.flash, m.backup, m.checkpoint)
    ensures Secured(sha, i, Stage2Run(sha, m, i))
  {
    hide Plan, Apply, Stage2Writes, Stage2Run, Recoverable, ExpectedRecord, Ended;
    Stage2RunCuts(sha, m, i);
  }

  lemma {:induction false} AttemptsSecured(sha: Hasher, i: Stage2Images, s0: Carried, faults: seq<Fault>)
    requires ValidStage2(i) && i.mode == Initialize && |s0.flash| == NOR_SIZE
    requires Recoverable(sha, i, s0.flash, s0.backup, s0.checkpoint)
    ensures var s := Attempts(sha, i, s0, faults);
            s.flash != s0.flash ==> Secured(sha, i, Boot(s, Fault(None, false)))
  {
    if faults != [] {
      var n := |faults| - 1;
      AttemptsSecured(sha, i, s0, faults[..n]);
      AttemptsKeep(sha, i, s0, faults[..n]);
      var m := Boot(Attempts(sha, i, s0, faults[..n]), faults[n]);
      Secures(sha, i, m);
      hide Stage2Run, Recoverable, ExpectedRecord, ValidStage2, Untouched, Stage2Writes;
      if m.chip.flash != s0.flash {
        StaysSecured(sha, i, m);
      }
    }
  }

  /** No backup yet, or one of the size of mtd3 that equals it or has its record beside it. */
  predicate FirstOrResumed(sha: Hasher, i: Stage2Images, s: Carried)
    requires |s.flash| == NOR_SIZE && |i.kernel| + |i.system| < 0x1_0000_0000
  {
    s.backup.Some? ==>
      && |s.backup.value| == 0x7C0000
      && (|| s.flash[0x680000..0xE40000] == s.backup.value
          || s.checkpoint == Some(Record(sha, s.backup.value, i.kernel, i.system, i.provisioning)))
  }

  lemma RecoverableStart(sha: Hasher, i: Stage2Images, s: Carried)
    requires ValidStage2(i) && i.mode == Initialize && |s.flash| == NOR_SIZE
    ensures FirstOrResumed(sha, i, s) <==> Recoverable(sha, i, s.flash, s.backup, s.checkpoint)
  {
    hide RecoveryCheckpoint.Record;
  }

  /**
   * The checkpoint of a stage 2. As soon as anything on the chip has changed, and when a run completes, the card tools
   * accept the backup and the checkpoint on the card beside the stage-2 file, which is kernel and system in this order.
   */
  lemma CheckpointAccepted(sha: Hasher, i: Stage2Images, s0: Carried, faults: seq<Fault>, last: Fault)
    requires IsSha256(sha) && Stage2Fits(i) && i.mode == Initialize && |s0.flash| == NOR_SIZE
    requires FirstOrResumed(sha, i, s0)
    ensures var s := Attempts(sha, i, s0, faults);
            var r := Stage2Run(sha, Boot(s, last), i);
            && (s.flash != s0.flash ==> Accepted(sha, i, s.backup, s.checkpoint))
            && (r.Live() || r.chip.flash != s.flash ==> Accepted(sha, i, r.backup, r.checkpoint))
            && (last.failAt == None ==>
                  r.Live() && r.backup == if s0.backup.Some? then s0.backup else Some(s0.flash[0x680000..0xE40000]))
  {
    Stage2FitsIsValid(i);
    RecoverableStart(sha, i, s0);
    AttemptsKeep(sha, i, s0, faults);
    AttemptsSecured(sha, i, s0, faults);
    var s := Attempts(sha, i, s0, faults);
    Secures(sha, i, Boot(s, last));
    var r := Stage2Run(sha, Boot(s, last), i);
    if last.failAt == None {
      Stage2Converges(sha, i, s0, faults, last);
    }
    hide Stage2Run, Recoverable, Stage2Fits, Accepted, ExpectedRecord, ValidStage2, Untouched, Stage2Writes, Attempts, Plan;
    if s.flash != s0.flash {
      SecuredAccepted(sha, i, Boot(s, Fault(None, false)));
    }
    if r.Live() || r.chip.flash != s.flash {
      SecuredAccepted(sha, i, r);
    }
  }

  /** Two records of one backup are equal exactly if kernel with system and provisioning agree by size and digest. */
  lemma SameRecord(sha: Hasher, backup: Bytes, i: Stage2Images, other: Stage2Images)
    requires IsSha256(sha) && |backup| == 0x7C0000
    requires |i.kernel| + |i.system| < 0x1_0000_0000 && |other.kernel| + |other.system| < 0x1_0000_0000
    ensures (Record(sha, backup, i.kernel, i.system, i.provisioning)
             == Record(sha, backup, other.kernel, other.system, other.provisioning)) <==> SameBinding(sha, i, other)
  {
    var x := Record(sha, backup, i.kernel, i.system, i.provisioning);
    var y := Record(sha, backup, other.kernel, other.system, other.provisioning);
    RecordAccepted(sha, i, backup);
    RecordAccepted(sha, other, backup);
    hide Be32, FromBe32;
    if SameBinding(sha, i, other) {
      assert Be32(|i.kernel| + |i.system|) == Be32(|other.kernel| + |other.system|);
    }
  }

  ghost predicate SameBinding(sha: Hasher, i: Stage2Images, other: Stage2Images) {
    && |i.kernel| + |i.system| == |other.kernel| + |other.system|
    && sha(i.kernel + i.system) == sha(other.kernel + other.system)
    && (i.provisioning == [] <==> other.provisioning == [])
    && (i.provisioning != [] ==> sha(i.provisioning) == sha(other.provisioning))
  }

  /**
   * Once mtd3 has changed a retry goes on exactly with images that agree with the first ones in size and digest of
   * kernel with system, and of the provisioning.
   */
  lemma OtherImagesRefused(sha: Hasher, i: Stage2Images, other: Stage2Images, s0: Carried, faults: seq<Fault>, last: Fault)
    requires IsSha256(sha) && Stage2Fits(i) && Stage2Fits(other) && i.mode == other.mode == Initialize
    requires |s0.flash| == NOR_SIZE && last.failAt == None && FirstOrResumed(sha, i, s0)
    ensures var s := Attempts(sha, i, s0, faults);
            var r := Stage2Run(sha, Boot(s, last), other);
            |s.flash| == NOR_SIZE
            && (s.backup.Some? && s.flash[0x680000..0xE40000] != s.backup.value ==>
                  (r.Live() <==> SameBinding(sha, i, other)) && (!r.Live() ==> r.chip.flash == s.flash))
  {
    hide Stage2Run, Stage2Fits, RecoveryCheckpoint.Record, Untouched, Stage2Writes, Attempts, SameBinding, ValidStage2,
         FirstOrResumed, Recoverable, ExpectedRecord;
    Stage2FitsIsValid(i);
    Stage2FitsIsValid(other);
    RecoverableStart(sha, i, s0);
    AttemptsKeep(sha, i, s0, faults);
    var s := Attempts(sha, i, s0, faults);
    if s.backup.Some? && s.flash[0x680000..0xE40000] != s.backup.value {
      ChangedIsRecorded(sha, i, other, s);
      OtherImagesRejected(sha, i, other, s, last);
      SameRecord(sha, s.backup.value, i, other);
    }
  }

  lemma ChangedIsRecorded(sha: Hasher, i: Stage2Images, other: Stage2Images, s: Carried)
    requires ValidStage2(i) && ValidStage2(other) && i.mode == Initialize && |s.flash| == NOR_SIZE
    requires Recoverable(sha, i, s.flash, s.backup, s.checkpoint)
    requires s.backup.Some? && s.flash[0x680000..0xE40000] != s.backup.value
    ensures |s.backup.value| == MTD3.size && s.checkpoint == Some(ExpectedRecord(sha, i, s.backup.value))
    ensures ExpectedRecord(sha, i, s.backup.value)
         == Record(sha, s.backup.value, i.kernel, i.system, i.provisioning)
    ensures ExpectedRecord(sha, other, s.backup.value)
         == Record(sha, s.backup.value, other.kernel, other.system, other.provisioning)
    ensures |i.kernel| + |i.system| < 0x1_0000_0000 && |other.kernel| + |other.system| < 0x1_0000_0000
  {
    hide RecoveryCheckpoint.Record;
  }
}
