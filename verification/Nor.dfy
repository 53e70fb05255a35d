/** The flash map of the camera: partitions of a 16 MiB NOR chip. */
module Layout {
  const ERASE_BLOCK := 0x10000
  const NOR_SIZE := 0x1000000

  datatype Partition = Partition(offset: nat, size: nat) {
    function End(): nat { offset + size }
  }

  const MTD0 := Partition(0x000000, 0x040000)
  const MTD1 := Partition(0x040000, 0x1C0000)
  const MTD2 := Partition(0x200000, 0x480000)
  const MTD3 := Partition(0x680000, 0x7C0000)
  const MTD4 := Partition(0xE40000, 0x180000)
  const MTD5 := Partition(0xFC0000, 0x040000)

  // Physical mtd3 is split into a system and a data region.
  const SYSTEM_SPAN := 101 * ERASE_BLOCK
  const DATA_SPAN := 23 * ERASE_BLOCK
}

/** A NOR chip whose power can be cut at any named event of an erase, a write or a readback. */
module Nor {
  import opened Common
  import opened Layout

  datatype Op =
    | FinalData | FinalSystem | FinalRootfs | FinalKernelTail | Activation
    | StockMtd3 | StockMtd2 | StockMtd1Tail | StockActivation
    | FinalKernel | UserdataBackup | UserdataBackupVerify | DataBefore | DataPreserved
    | StockFull(mtd: nat)

  /** A state of the installer or of the stock-restore machine, by its place in that machine's fixed order. */
  datatype Phase = Install(step: nat) | Restore(step: nat) | FailedPowerLoss | FailedWriteOrStateGate

  /** Every named point at which the fault injector can cut power. */
  datatype Event =
    | BeforeErase(op: Op) | AfterErase(op: Op)
    | BeforeEraseSector(op: Op, index: nat) | DuringEraseSector(op: Op, index: nat)
    | AfterEraseSector(op: Op, index: nat)
    | BeforeWrite(op: Op) | AfterWrite(op: Op)
    | BeforeWritePage(op: Op, index: nat) | DuringWritePage(op: Op, index: nat)
    | AfterWritePage(op: Op, index: nat)
    | BeforeReadback(op: Op) | AfterReadback(op: Op)
    | BeforeState(phase: Phase) | AfterState(phase: Phase)
    | BeforeWriteCheckpoint | AfterWriteCheckpoint | BeforeReadCheckpoint | AfterReadCheckpoint

  datatype Fault = Fault(failAt: Option<Event>, physical: bool)

  datatype MtdError =
    | EraseMisaligned | WriteMisaligned | OutsideNor | ZeroToOne | ExceedsSpan | ReadbackMismatch
    | InvalidImages | InvalidTransition | ProtectedDiffers | BackupSizeMismatch
    | CheckpointMismatch | PreservedDataChanged | Mtd2Changed | FlashChanged

  datatype Outcome = Running | PowerLoss | Failed(error: MtdError)

  /** Flash contents, the injected fault, and how the run stands so far. */
  datatype Chip = Chip(flash: Bytes, fault: Fault, outcome: Outcome)

  /* ---- Geometry: sectors of 0x8000 bytes are erased, pages of 0x100 bytes are written ---- */

  predicate WholeSectors(n: int) { n % 0x8000 == 0 }

  predicate WholePages(n: int) { n % 0x100 == 0 }

  lemma PagesBelow(m: int, n: int)
    requires WholePages(m) && WholePages(n) && m < n + 0x100
    ensures m <= n
  {
  }

  function SectorStart(index: nat): nat { index * 0x8000 }

  function PageStart(index: nat): nat { index * 0x100 }

  lemma Starts(i: nat, j: nat)
    requires i <= j
    ensures SectorStart(0) == 0 == PageStart(0)
    ensures SectorStart(i) <= SectorStart(j) && PageStart(i) <= PageStart(j)
    ensures i < j ==> SectorStart(i + 1) <= SectorStart(j) && PageStart(i + 1) <= PageStart(j)
    ensures SectorStart(i + 1) == SectorStart(i) + 0x8000 && PageStart(i + 1) == PageStart(i) + 0x100
  {
  }

  function Sectors(n: nat): (k: nat)
    requires WholeSectors(n)
    ensures SectorStart(k) == n
  {
    n / 0x8000
  }

  function Pages(n: nat): (k: nat)
    requires WholePages(n)
    ensures PageStart(k) == n
  {
    n / 0x100
  }

  lemma SectorsArePages(n: int)
    requires WholeSectors(n)
    ensures WholePages(n)
  {
    assert n == 0x100 * (0x80 * (n / 0x8000));
  }

  /* ---- What each operation does, in closed form ---- */

  function Mark(m: Chip, e: Event): Chip {
    if m.outcome == Running && m.fault.failAt == Some(e) then m.(outcome := PowerLoss) else m
  }

  /** How many bytes are cleared when power is cut at or inside one of the first `sectors` sectors. */
  function SectorCut(fault: Fault, op: Op, sectors: nat): (k: Option<nat>)
    ensures k.Some? ==> k.value <= SectorStart(sectors)
  {
    match fault.failAt
    case Some(BeforeEraseSector(l, i)) => if fault.physical && l == op && i < sectors then Some(SectorStart(i)) else None
    case Some(DuringEraseSector(l, i)) =>
      if fault.physical && l == op && i < sectors then Some(SectorStart(i) + 0x4000) else None
    case Some(AfterEraseSector(l, i)) => if fault.physical && l == op && i < sectors then Some(SectorStart(i + 1)) else None
    case _ => None
  }

  lemma SectorCutStays(fault: Fault, op: Op, i: nat, n: nat)
    requires i <= n
    ensures SectorCut(fault, op, 0) == None
    ensures SectorCut(fault, op, i).Some? ==> SectorCut(fault, op, n) == SectorCut(fault, op, i)
  {
  }

  lemma SectorCutStep(fault: Fault, op: Op, i: nat)
    requires fault.physical && SectorCut(fault, op, i) == None
    ensures SectorCut(fault, op, i + 1) ==
            if fault.failAt == Some(BeforeEraseSector(op, i)) then Some(SectorStart(i))
            else if fault.failAt == Some(DuringEraseSector(op, i)) then Some(SectorStart(i) + 0x4000)
            else if fault.failAt == Some(AfterEraseSector(op, i)) then Some(SectorStart(i + 1))
            else None
  {
  }

  /** The same for a whole erase. */
  function EraseCut(fault: Fault, op: Op, sectors: nat): (k: Option<nat>)
    ensures k.Some? ==> k.value <= SectorStart(sectors)
  {
    if fault.failAt == Some(BeforeErase(op)) then Some(0)
    else if fault.failAt == Some(AfterErase(op)) then Some(SectorStart(sectors))
    else SectorCut(fault, op, sectors)
  }

  function Erase(m: Chip, offset: int, length: int, op: Op): (r: Chip)
    ensures |r.flash| == |m.flash| && r.fault == m.fault
  {
    if m.outcome != Running then m
    else if !WholeSectors(offset) || length <= 0 || !WholeSectors(length) then m.(outcome := Failed(EraseMisaligned))
    else if offset < 0 || offset + length > |m.flash| then m.(outcome := Failed(OutsideNor))
    else match EraseCut(m.fault, op, Sectors(length))
      case Some(k) => m.(flash := Put(m.flash, offset, Erased(k)), outcome := PowerLoss)
      case None => m.(flash := Put(m.flash, offset, Erased(length)))
  }

  /** A page can be programmed when it sets no bit that is zero on the chip. */
  ghost predicate Programmable(c: Bytes, at: nat, page: Bytes)
    requires at + |page| <= |c|
  {
    forall i :: 0 <= i < |page| ==> page[i] | c[at + i] == c[at + i]
  }

  function PageOf(payload: Bytes, index: nat): (p: Bytes)
    requires PageStart(index + 1) <= |payload|
    ensures |p| == 0x100
  {
    payload[PageStart(index)..PageStart(index + 1)]
  }

  ghost predicate Accepted(c: Bytes, at: nat, payload: Bytes, index: nat)
    requires at + |payload| <= |c| && PageStart(index + 1) <= |payload|
  {
    Programmable(c, at + PageStart(index), PageOf(payload, index))
  }

  /** b is the number of the first page the chip refuses, or the page count when it refuses none. */
  ghost predicate RefusesFrom(c: Bytes, at: nat, payload: Bytes, b: nat)
    requires at + |payload| <= |c| && WholePages(|payload|) && b <= Pages(|payload|)
  {
    && (forall i :: 0 <= i < b ==> Accepted(c, at, payload, i))
    && (b < Pages(|payload|) ==> !Accepted(c, at, payload, b))
  }

  lemma SomePageIsFirst(c: Bytes, at: nat, payload: Bytes, from: nat) returns (b: nat)
    requires at + |payload| <= |c| && WholePages(|payload|) && from <= Pages(|payload|)
    requires forall i :: 0 <= i < from ==> Accepted(c, at, payload, i)
    ensures b <= Pages(|payload|) && RefusesFrom(c, at, payload, b)
    decreases Pages(|payload|) - from
  {
    if from == Pages(|payload|) || !Accepted(c, at, payload, from) {
      b := from;
    } else {
      b := SomePageIsFirst(c, at, payload, from + 1);
    }
  }

  lemma RefusedPage(c: Bytes, at: nat, payload: Bytes, b: nat, i: nat)
    requires at + |payload| <= |c| && WholePages(|payload|) && b <= Pages(|payload|) && RefusesFrom(c, at, payload, b)
    requires i <= b && PageStart(i + 1) <= |payload|
    ensures i < b <==> Accepted(c, at, payload, i)
  {
  }

  ghost function FirstRefused(c: Bytes, at: nat, payload: Bytes): (b: nat)
    requires at + |payload| <= |c| && WholePages(|payload|)
    ensures b <= Pages(|payload|) && RefusesFrom(c, at, payload, b)
  {
    assert exists first: nat :: first <= Pages(|payload|) && RefusesFrom(c, at, payload, first) by {
      var _ := SomePageIsFirst(c, at, payload, 0);
    }
    var first: nat :| first <= Pages(|payload|) && RefusesFrom(c, at, payload, first);
    first
  }

  /** How many payload bytes are on the chip when power is cut at or inside one of the first `pages` pages. */
  function PageCut(fault: Fault, op: Op, pages: nat, refused: nat): (k: Option<nat>)
    ensures k.Some? ==> k.value <= PageStart(pages)
  {
    match fault.failAt
    case Some(BeforeWritePage(l, i)) =>
      if fault.physical && l == op && i < pages && i <= refused then Some(PageStart(i)) else None
    case Some(DuringWritePage(l, i)) =>
      if fault.physical && l == op && i < pages && i < refused then Some(PageStart(i) + 0x80) else None
    case Some(AfterWritePage(l, i)) =>
      if fault.physical && l == op && i < pages && i < refused then Some(PageStart(i + 1)) else None
    case _ => None
  }

  lemma PageCutStays(fault: Fault, op: Op, i: nat, n: nat, refused: nat)
    requires i <= n
    ensures PageCut(fault, op, 0, refused) == None
    ensures PageCut(fault, op, i, refused).Some? ==> PageCut(fault, op, n, refused) == PageCut(fault, op, i, refused)
    ensures refused < i ==> PageCut(fault, op, n, refused) == PageCut(fault, op, i, refused)
  {
  }

  lemma PageCutStep(fault: Fault, op: Op, i: nat, refused: nat)
    requires i <= refused && PageCut(fault, op, i, refused) == None
    ensures PageCut(fault, op, i + 1, refused) ==
            if !fault.physical then None
            else if fault.failAt == Some(BeforeWritePage(op, i)) then Some(PageStart(i))
            else if i < refused && fault.failAt == Some(DuringWritePage(op, i)) then Some(PageStart(i) + 0x80)
            else if i < refused && fault.failAt == Some(AfterWritePage(op, i)) then Some(PageStart(i + 1))
            else None
  {
  }

  /** The same for a whole write; a write that reaches a refused page never gets to its closing event. */
  function WriteCut(fault: Fault, op: Op, pages: nat, refused: nat): (k: Option<nat>)
    requires refused <= pages
    ensures k.Some? ==> k.value <= PageStart(pages)
  {
    if fault.failAt == Some(BeforeWrite(op)) then Some(0)
    else if fault.failAt == Some(AfterWrite(op)) && refused == pages then Some(PageStart(pages))
    else PageCut(fault, op, pages, refused)
  }

  /** A write of whole pages inside the chip. */
  ghost function WritePages(m: Chip, offset: nat, payload: Bytes, op: Op): (r: Chip)
    requires WholePages(|payload|) && offset + |payload| <= |m.flash|
    ensures |r.flash| == |m.flash| && r.fault == m.fault
  {
    var pages := Pages(|payload|);
    var refused := FirstRefused(m.flash, offset, payload);
    match WriteCut(m.fault, op, pages, refused)
    case Some(k) => m.(flash := Put(m.flash, offset, payload[..k]), outcome := PowerLoss)
    case None =>
      if refused < pages
      then m.(flash := Put(m.flash, offset, payload[..PageStart(refused)]), outcome := Failed(ZeroToOne))
      else m.(flash := Put(m.flash, offset, payload))
  }

  ghost function Write(m: Chip, offset: int, payload: Bytes, op: Op): (r: Chip)
    ensures |r.flash| == |m.flash| && r.fault == m.fault
  {
    if m.outcome != Running then m
    else if !WholePages(offset) || |payload| == 0 || !WholePages(|payload|) then m.(outcome := Failed(WriteMisaligned))
    else if offset < 0 || offset + |payload| > |m.flash| then m.(outcome := Failed(OutsideNor))
    else WritePages(m, offset, payload, op)
  }

  function Readback(m: Chip, offset: int, length: int, op: Op): (r: Chip)
    ensures r.flash == m.flash && r.fault == m.fault
  {
    if m.outcome != Running then m
    else if offset < 0 || length < 0 || offset + length > |m.flash| then m.(outcome := Failed(OutsideNor))
    else Mark(Mark(m, BeforeReadback(op)), AfterReadback(op))
  }

  lemma ErasedOnward(c: Bytes, at: nat, done: nat, more: nat)
    requires at + done + more <= |c|
    ensures Put(Put(c, at, Erased(done)), at + done, Erased(more)) == Put(c, at, Erased(done + more))
  {
  }

  lemma WrittenOnward(c: Bytes, d: Bytes, at: nat, payload: Bytes, done: nat, more: nat)
    requires at + |payload| <= |c| == |d| && done + more <= |payload|
    requires AgreeOutside(Put(c, at, payload[..done]), d, at + done, at + done + more)
    requires forall i :: at + done <= i < at + done + more ==> d[i] == payload[i - at]
    ensures d == Put(c, at, payload[..done + more])
  {
  }

  lemma PageUntouched(c: Bytes, at: nat, payload: Bytes, index: nat)
    requires at + |payload| <= |c| && PageStart(index + 1) <= |payload|
    ensures Programmable(Put(c, at, payload[..PageStart(index)]), at + PageStart(index), PageOf(payload, index)) <==>
            Accepted(c, at, payload, index)
  {
  }

  /* ---- NOR physics, at every cut ---- */

  /** Whatever happens to an erase, it leaves each byte either as it was or erased. */
  lemma EraseOnlyErases(m: Chip, offset: int, length: int, op: Op, i: nat)
    requires i < |m.flash|
    ensures var d := Erase(m, offset, length, op).flash;
            (d[i] == m.flash[i] || d[i] == 0xff) && (!(offset <= i < offset + length) ==> d[i] == m.flash[i])
  {
  }

  /** However a write ends, the chip holds a prefix of the payload made of pages it did not refuse. */
  lemma WrittenPrefix(m: Chip, offset: nat, payload: Bytes, op: Op) returns (k: nat)
    requires WholePages(|payload|) && offset + |payload| <= |m.flash|
    ensures k <= |payload| && k <= PageStart(FirstRefused(m.flash, offset, payload))
    ensures WritePages(m, offset, payload, op).flash == Put(m.flash, offset, payload[..k])
  {
    var refused := FirstRefused(m.flash, offset, payload);
    assert payload[..|payload|] == payload;
    k := match WriteCut(m.fault, op, Pages(|payload|), refused)
      case Some(k) => k
      case None => PageStart(refused);
  }

  lemma AcceptedClears(c: Bytes, at: nat, payload: Bytes, j: nat)
    requires at + |payload| <= |c| && WholePages(|payload|)
    requires j < PageStart(FirstRefused(c, at, payload))
    ensures payload[j] | c[at + j] == c[at + j]
  {
    var p := j / 0x100;
    assert Accepted(c, at, payload, p);
    assert PageOf(payload, p)[j - PageStart(p)] == payload[j];
  }

  /** Whatever happens to a write, cut or refused part way, it only clears bits, and only in its range. */
  lemma WriteOnlyClears(m: Chip, offset: int, payload: Bytes, op: Op, i: nat)
    requires i < |m.flash|
    ensures var d := Write(m, offset, payload, op).flash;
            d[i] | m.flash[i] == m.flash[i] && (!(offset <= i < offset + |payload|) ==> d[i] == m.flash[i])
  {
    var r := Write(m, offset, payload, op);
    if r.flash[i] != m.flash[i] {
      var k := WrittenPrefix(m, offset, payload, op);
      AcceptedClears(m.flash, offset, payload, i - offset);
    }
  }

  /* ---- Each operation in bytes ---- */

  /** From `at` on k bytes are erased, and nothing else has changed. */
  ghost predicate Cleared(before: Bytes, after: Bytes, at: int, k: nat) {
    |after| == |before| && forall j: nat | j < |before| :: after[j] == if at <= j < at + k then 0xff else before[j]
  }

  /** From `at` on the first k bytes of the payload are there, and nothing else has changed. */
  ghost predicate Programmed(before: Bytes, after: Bytes, at: nat, payload: Bytes, k: nat)
    requires k <= |payload|
  {
    && |after| == |before|
    && forall j: nat | j < |before| :: after[j] == if at <= j < at + k then payload[j - at] else before[j]
  }

  /** An erase without a cut, and at each of its cuts; half of the sector being erased is gone in the middle of it. */
  lemma EraseExactly(m: Chip, offset: int, length: int, op: Op, i: nat)
    requires m.outcome == Running
    ensures var r, at := Erase(m, offset, length, op), m.fault.failAt;
            if offset % 0x8000 != 0 || length <= 0 || length % 0x8000 != 0 then r == m.(outcome := Failed(EraseMisaligned))
            else if offset < 0 || offset + length > |m.flash| then r == m.(outcome := Failed(OutsideNor))
            else
              var inside := m.fault.physical && 0x8000 * i < length;
              && r.outcome in {Running, PowerLoss} && (at == None ==> r.outcome == Running)
              && (r.outcome == Running ==> Cleared(m.flash, r.flash, offset, length))
              && (at == Some(BeforeErase(op)) ==> r.outcome == PowerLoss && r.flash == m.flash)
              && (at == Some(AfterErase(op)) ==> r.outcome == PowerLoss && Cleared(m.flash, r.flash, offset, length))
              && (inside && at == Some(BeforeEraseSector(op, i)) ==>
                    r.outcome == PowerLoss && Cleared(m.flash, r.flash, offset, 0x8000 * i))
              && (inside && at == Some(DuringEraseSector(op, i)) ==>
                    r.outcome == PowerLoss && Cleared(m.flash, r.flash, offset, 0x8000 * i + 0x4000))
              && (inside && at == Some(AfterEraseSector(op, i)) ==>
                    r.outcome == PowerLoss && Cleared(m.flash, r.flash, offset, 0x8000 * (i + 1)))
  {
    if WholeSectors(offset) && length > 0 && WholeSectors(length) && 0 <= offset && offset + length <= |m.flash| {
      var n := Sectors(length);
      SectorsWithin(length, i);
      hide WholeSectors, Sectors, SectorStart;
      match EraseCut(m.fault, op, n)
      case Some(k) => PutIsCleared(m.flash, offset, k);
      case None => PutIsCleared(m.flash, offset, length);
    }
  }

  lemma SectorsWithin(length: nat, i: nat)
    requires WholeSectors(length)
    ensures i < Sectors(length) <==> 0x8000 * i < length
    ensures SectorStart(i) == 0x8000 * i && SectorStart(i + 1) == 0x8000 * (i + 1)
    ensures SectorStart(Sectors(length)) == length
  {
  }

  lemma PutIsCleared(c: Bytes, at: nat, k: nat)
    requires at + k <= |c|
    ensures Cleared(c, Put(c, at, Erased(k)), at, k)
    ensures k == 0 ==> Put(c, at, Erased(k)) == c
  {
  }

  /** The chip takes every byte of the payload: none of them sets a bit that is clear. */
  ghost predicate Takes(c: Bytes, at: nat, payload: Bytes, from: nat, to: nat)
    requires at + |payload| <= |c| && from <= to <= |payload|
  {
    forall j | from <= j < to :: payload[j] | c[at + j] == c[at + j]
  }

  lemma WriteRefuses(m: Chip, offset: int, payload: Bytes, op: Op)
    requires m.outcome == Running
    ensures var r, size := Write(m, offset, payload, op), |payload|;
            if offset % 0x100 != 0 || size == 0 || size % 0x100 != 0 then r == m.(outcome := Failed(WriteMisaligned))
            else if offset < 0 || offset + size > |m.flash| then r == m.(outcome := Failed(OutsideNor))
            else r == WritePages(m, offset, payload, op)
  {
  }

  /**
   * A write inside the chip that no page event cuts. The first `b` pages are those the chip takes; the next one, if
   * there is any, fails the write.
   */
  lemma WriteExactly(m: Chip, offset: nat, payload: Bytes, op: Op) returns (b: nat)
    requires WholePages(|payload|) && offset + |payload| <= |m.flash|
    requires m.fault.failAt in {None, Some(BeforeWrite(op)), Some(AfterWrite(op))}
    ensures 0x100 * b <= |payload| && Takes(m.flash, offset, payload, 0, 0x100 * b)
    ensures 0x100 * b < |payload| ==>
              0x100 * b + 0x100 <= |payload| && !Takes(m.flash, offset, payload, 0x100 * b, 0x100 * b + 0x100)
    ensures var r, at := WritePages(m, offset, payload, op), m.fault.failAt;
            if at == Some(BeforeWrite(op)) then r.outcome == PowerLoss && r.flash == m.flash
            else
              && Programmed(m.flash, r.flash, offset, payload, 0x100 * b)
              && r.outcome == (if 0x100 * b < |payload| then Failed(ZeroToOne)
                               else if at == None then m.outcome else PowerLoss)
  {
    b := FirstRefused(m.flash, offset, payload);
    PagesWithin(|payload|, b);
    TakesUntil(m.flash, offset, payload, b);
    WriteEnds(m, offset, payload, op);
    hide WholePages, Pages, PageStart, RefusesFrom, Takes, Programmed, WritePages, SectorCut;
  }

  /** And one that is cut at a page; in the middle of it half of the page is written. */
  lemma WriteCutExactly(m: Chip, offset: nat, payload: Bytes, op: Op, i: nat)
    requires WholePages(|payload|) && offset + |payload| <= |m.flash| && Takes(m.flash, offset, payload, 0, |payload|)
    requires m.fault.physical && 0x100 * i < |payload|
    requires m.fault.failAt in {Some(BeforeWritePage(op, i)), Some(DuringWritePage(op, i)), Some(AfterWritePage(op, i))}
    ensures var k := 0x100 * i + if m.fault.failAt == Some(BeforeWritePage(op, i)) then 0
                                 else if m.fault.failAt == Some(DuringWritePage(op, i)) then 0x80 else 0x100;
            var r := WritePages(m, offset, payload, op);
            k <= |payload| && r.outcome == PowerLoss && Programmed(m.flash, r.flash, offset, payload, k)
  {
    var b := FirstRefused(m.flash, offset, payload);
    PagesWithin(|payload|, i);
    PagesWithin(|payload|, b);
    TakesUntil(m.flash, offset, payload, b);
    WriteEnds(m, offset, payload, op);
    hide WholePages, Pages, PageStart, RefusesFrom, Takes, Programmed, WritePages, SectorCut;
  }

  lemma WriteEnds(m: Chip, offset: nat, payload: Bytes, op: Op)
    requires WholePages(|payload|) && offset + |payload| <= |m.flash|
    ensures var r, b := WritePages(m, offset, payload, op), FirstRefused(m.flash, offset, payload);
            PageStart(b) <= |payload|
            && match WriteCut(m.fault, op, Pages(|payload|), b)
               case Some(k) =>
                 && r.outcome == PowerLoss && k <= |payload| && Programmed(m.flash, r.flash, offset, payload, k)
                 && (k == 0 ==> r.flash == m.flash)
               case None =>
                 && r.outcome == (if b < Pages(|payload|) then Failed(ZeroToOne) else m.outcome)
                 && Programmed(m.flash, r.flash, offset, payload, PageStart(b))
  {
    var b := FirstRefused(m.flash, offset, payload);
    hide RefusesFrom, Takes, Programmed, WriteCut, WholePages;
    assert payload[..|payload|] == payload;
    match WriteCut(m.fault, op, Pages(|payload|), b)
    case Some(k) => PutIsProgrammed(m.flash, offset, payload, k);
    case None => PutIsProgrammed(m.flash, offset, payload, PageStart(b));
  }

  lemma PagesWithin(size: nat, i: nat)
    requires WholePages(size)
    ensures i < Pages(size) <==> 0x100 * i < size
    ensures 0x100 * i < size ==> 0x100 * (i + 1) <= size
    ensures PageStart(i) == 0x100 * i && PageStart(i + 1) == 0x100 * (i + 1) && PageStart(Pages(size)) == size
  {
  }

  lemma PutIsProgrammed(c: Bytes, at: nat, payload: Bytes, k: nat)
    requires at + |payload| <= |c| && k <= |payload|
    ensures Programmed(c, Put(c, at, payload[..k]), at, payload, k)
    ensures k == 0 ==> Put(c, at, payload[..k]) == c
  {
  }

  /** Up to the first refused page every byte is taken, and in that page one is not. */
  lemma TakesUntil(c: Bytes, at: nat, payload: Bytes, b: nat)
    requires at + |payload| <= |c| && WholePages(|payload|) && b <= Pages(|payload|) && RefusesFrom(c, at, payload, b)
    ensures 0x100 * b <= |payload| && Takes(c, at, payload, 0, 0x100 * b)
    ensures b < Pages(|payload|) ==>
              0x100 * b + 0x100 <= |payload| && !Takes(c, at, payload, 0x100 * b, 0x100 * b + 0x100)
    ensures Takes(c, at, payload, 0, |payload|) <==> b == Pages(|payload|)
  {
    PagesWithin(|payload|, b);
    forall j | 0 <= j < 0x100 * b ensures payload[j] | c[at + j] == c[at + j] {
      var p := j / 0x100;
      PagesWithin(|payload|, p);
      assert Accepted(c, at, payload, p);
      RefusedByte(c, at, payload, p);
    }
    if b < Pages(|payload|) {
      RefusedByte(c, at, payload, b);
    }
  }

  lemma RefusedByte(c: Bytes, at: nat, payload: Bytes, b: nat)
    requires at + |payload| <= |c| && 0x100 * b + 0x100 <= |payload| && PageStart(b + 1) <= |payload|
    ensures Accepted(c, at, payload, b) <==> Takes(c, at, payload, 0x100 * b, 0x100 * b + 0x100)
  {
    var page := PageOf(payload, b);
    assert forall x | 0 <= x < 0x100 :: page[x] == payload[0x100 * b + x];
    if Takes(c, at, payload, 0x100 * b, 0x100 * b + 0x100) {
      forall x | 0 <= x < |page| ensures page[x] | c[at + PageStart(b) + x] == c[at + PageStart(b) + x] {
        assert payload[0x100 * b + x] == page[x];
      }
    }
    if Accepted(c, at, payload, b) {
      forall j | 0x100 * b <= j < 0x100 * b + 0x100 ensures payload[j] | c[at + j] == c[at + j] {
        assert page[j - 0x100 * b] == payload[j];
      }
    }
  }

  /* ---- The chip itself ---- */

  class FakeNor {
    const contents: array<bv8>
    const fault: Fault

    ghost function View(o: Outcome): Chip
      reads contents
    {
      Chip(contents[..], fault, o)
    }

    constructor (initial: Bytes, fault: Fault)
      requires |initial| == NOR_SIZE
      ensures fresh(contents) && View(Running) == Chip(initial, fault, Running)
    {
      contents := new bv8[|initial|](i requires 0 <= i < |initial| => initial[i]);
      this.fault := fault;
      new;
      assert contents[..] == initial;
    }

    method Checkpoint(e: Event) returns (o: Outcome)
      ensures View(o) == Mark(View(Running), e)
    {
      o := if fault.failAt == Some(e) then PowerLoss else Running;
    }

    method Fill(from: nat, count: nat)
      requires from + count <= contents.Length
      modifies contents
      ensures contents[..] == Put(old(contents[..]), from, Erased(count))
    {
      forall i | from <= i < from + count {
        contents[i] := 0xff;
      }
    }

    method EraseSector(ghost before: Bytes, offset: nat, index: nat, op: Op) returns (o: Outcome)
      requires fault.physical && offset + SectorStart(index + 1) <= contents.Length && |before| == contents.Length
      requires contents[..] == Put(before, offset, Erased(SectorStart(index))) && SectorCut(fault, op, index) == None
      modifies contents
      ensures ErasedSectors(before, offset, index + 1, op, o)
    {
      hide Put, Erased, SectorStart, SectorCut;
      Starts(index, index + 1);
      SectorCutStep(fault, op, index);
      var at := offset + SectorStart(index);
      o := Checkpoint(BeforeEraseSector(op, index));
      if o != Running { return; }
      if fault.failAt == Some(DuringEraseSector(op, index)) {
        Fill(at, 0x4000);
        ErasedOnward(before, offset, SectorStart(index), 0x4000);
        o := Checkpoint(DuringEraseSector(op, index));
        return;
      }
      Fill(at, 0x8000);
      ErasedOnward(before, offset, SectorStart(index), 0x8000);
      o := Checkpoint(AfterEraseSector(op, index));
    }

    /** `sectors` sectors have been erased, or power was lost on the way. */
    ghost predicate ErasedSectors(before: Bytes, offset: nat, sectors: nat, op: Op, o: Outcome)
      requires offset + SectorStart(sectors) <= |before|
      reads contents
    {
      match SectorCut(fault, op, sectors)
      case Some(k) => o == PowerLoss && contents[..] == Put(before, offset, Erased(k))
      case None => o == Running && contents[..] == Put(before, offset, Erased(SectorStart(sectors)))
    }

    method EraseSectors(offset: nat, sectors: nat, op: Op) returns (o: Outcome)
      requires fault.physical && offset + SectorStart(sectors) <= contents.Length
      modifies contents
      ensures ErasedSectors(old(contents[..]), offset, sectors, op, o)
    {
      hide Put, Erased, SectorStart, SectorCut;
      ghost var before := contents[..];
      PutNothing(before, offset);
      Starts(0, sectors);
      SectorCutStays(fault, op, 0, sectors);
      o := Running;
      var index := 0;
      while index < sectors
        invariant 0 <= index <= sectors && offset + SectorStart(index) <= |before|
        invariant o == Running && ErasedSectors(before, offset, index, op, o)
      {
        Starts(index, sectors);
        SectorCutStays(fault, op, index + 1, sectors);
        o := EraseSector(before, offset, index, op);
        if o != Running { return; }
        index := index + 1;
      }
    }

    method EraseAligned(offset: nat, sectors: nat, op: Op) returns (o: Outcome)
      requires 0 < sectors && offset + SectorStart(sectors) <= contents.Length
      modifies contents
      ensures match EraseCut(fault, op, sectors)
        case Some(k) => o == PowerLoss && contents[..] == Put(old(contents[..]), offset, Erased(k))
        case None => o == Running && contents[..] == Put(old(contents[..]), offset, Erased(SectorStart(sectors)))
    {
      PutNothing(contents[..], offset);
      o := Checkpoint(BeforeErase(op));
      if o != Running { return; }
      if fault.physical {
        o := EraseSectors(offset, sectors, op);
        if o != Running { return; }
      } else {
        Fill(offset, SectorStart(sectors));
      }
      o := Checkpoint(AfterErase(op));
    }

    method EraseRange(offset: int, length: int, op: Op) returns (o: Outcome)
      modifies contents
      ensures View(o) == Erase(old(View(Running)), offset, length, op)
    {
      if !WholeSectors(offset) || length <= 0 || !WholeSectors(length) {
        o := Failed(EraseMisaligned);
      } else if offset < 0 || offset + length > contents.Length {
        o := Failed(OutsideNor);
      } else {
        o := EraseAligned(offset, Sectors(length), op);
      }
    }

    method CheckPage(at: nat, page: Bytes) returns (ok: bool)
      requires at + |page| <= contents.Length
      ensures ok <==> Programmable(contents[..], at, page)
    {
      for i := 0 to |page|
        invariant forall j :: 0 <= j < i ==> page[j] | contents[at + j] == contents[at + j]
      {
        if page[i] | contents[at + i] != contents[at + i] {
          return false;
        }
      }
      ok := true;
    }

    /** The first `pages` pages are on the chip, or power was lost, or a page was refused, on the way. */
    ghost predicate WrittenPages(before: Bytes, offset: nat, payload: Bytes, refused: nat, pages: nat, op: Op,
                                 o: Outcome)
      requires offset + |payload| <= |before| && PageStart(pages) <= |payload|
      reads contents
    {
      match PageCut(fault, op, pages, refused)
      case Some(k) => o == PowerLoss && contents[..] == Put(before, offset, payload[..k])
      case None =>
        if refused < pages
        then o == Failed(ZeroToOne) && contents[..] == Put(before, offset, payload[..PageStart(refused)])
        else o == Running && contents[..] == Put(before, offset, payload[..PageStart(pages)])
    }

    /** Power lost inside a page: only its first half has been programmed, bit by bit on top of what was there. */
    method TearPage(ghost before: Bytes, offset: nat, payload: Bytes, done: nat, page: Bytes)
      requires |before| == contents.Length && offset + |payload| <= contents.Length
      requires done + 0x100 <= |payload| && page == payload[done..done + 0x100]
      requires contents[..] == Put(before, offset, payload[..done])
      requires Programmable(contents[..], offset + done, page)
      modifies contents
      ensures contents[..] == Put(before, offset, payload[..done + 0x80])
    {
      hide Put;
      var at := offset + done;
      forall i | 0 <= i < 0x100 ensures contents[at + i] & page[i] == page[i] {
        assert page[i] | contents[..][at + i] == contents[..][at + i];
      }
      forall i | at <= i < at + 0x80 {
        contents[i] := contents[i] & page[i - at];
      }
      WrittenOnward(before, contents[..], offset, payload, done, 0x80);
    }

    method ProgramPage(ghost before: Bytes, offset: nat, payload: Bytes, done: nat, page: Bytes)
      requires |before| == contents.Length && offset + |payload| <= contents.Length
      requires done + 0x100 <= |payload| && page == payload[done..done + 0x100]
      requires contents[..] == Put(before, offset, payload[..done])
      modifies contents
      ensures contents[..] == Put(before, offset, payload[..done + 0x100])
    {
      hide Put;
      var at := offset + done;
      forall i | at <= i < at + 0x100 {
        contents[i] := page[i - at];
      }
      WrittenOnward(before, contents[..], offset, payload, done, 0x100);
    }

    method WritePage(ghost before: Bytes, ghost refused: nat, offset: nat, payload: Bytes, index: nat, op: Op)
      returns (o: Outcome)
      requires |before| == contents.Length && offset + |payload| <= contents.Length && PageStart(index + 1) <= |payload|
      requires index <= refused
      requires index < refused <==> Accepted(before, offset, payload, index)
      requires WrittenPages(before, offset, payload, refused, index, op, Running)
      modifies contents
      ensures WrittenPages(before, offset, payload, refused, index + 1, op, o)
    {
      hide Put, PageStart, PageCut, Programmable, Accepted;
      Starts(index, index + 1);
      PageUntouched(before, offset, payload, index);
      PageCutStep(fault, op, index, refused);
      o := Running;
      if fault.physical {
        o := Checkpoint(BeforeWritePage(op, index));
        if o != Running { return; }
      }
      var page := PageOf(payload, index);
      var ok := CheckPage(offset + PageStart(index), page);
      if !ok {
        return Failed(ZeroToOne);
      }
      if fault.physical && fault.failAt == Some(DuringWritePage(op, index)) {
        TearPage(before, offset, payload, PageStart(index), page);
        o := Checkpoint(DuringWritePage(op, index));
        return;
      }
      ProgramPage(before, offset, payload, PageStart(index), page);
      if fault.physical {
        o := Checkpoint(AfterWritePage(op, index));
      }
    }

    method WriteLoop(ghost refused: nat, offset: nat, payload: Bytes, op: Op) returns (o: Outcome)
      requires WholePages(|payload|) && offset + |payload| <= contents.Length
      requires refused <= Pages(|payload|)
      requires RefusesFrom(contents[..], offset, payload, refused)
      modifies contents
      ensures WrittenPages(old(contents[..]), offset, payload, refused, Pages(|payload|), op, o)
    {
      hide Put, PageStart, PageCut, Accepted, RefusesFrom;
      ghost var before := contents[..];
      PutNothing(before, offset);
      assert payload[..0] == [];
      Starts(0, Pages(|payload|));
      PageCutStays(fault, op, 0, Pages(|payload|), refused);
      o := Running;
      var index := 0;
      while index < Pages(|payload|)
        invariant 0 <= index <= Pages(|payload|) && index <= refused && PageStart(index) <= |payload|
        invariant o == Running && WrittenPages(before, offset, payload, refused, index, op, o)
      {
        Starts(index, Pages(|payload|));
        PageCutStays(fault, op, index + 1, Pages(|payload|), refused);
        RefusedPage(before, offset, payload, refused, index);
        o := WritePage(before, refused, offset, payload, index, op);
        if o != Running { return; }
        index := index + 1;
      }
    }

    method WriteAligned(offset: nat, payload: Bytes, op: Op) returns (o: Outcome)
      requires WholePages(|payload|) && offset + |payload| <= contents.Length
      modifies contents
      ensures View(o) == WritePages(old(View(Running)), offset, payload, op)
    {
      ghost var refused := FirstRefused(contents[..], offset, payload);
      PutNothing(contents[..], offset);
      assert payload[..0] == [];
      assert payload[..|payload|] == payload;
      o := Checkpoint(BeforeWrite(op));
      if o != Running { return; }
      o := WriteLoop(refused, offset, payload, op);
      if o != Running { return; }
      o := Checkpoint(AfterWrite(op));
    }

    method WriteRange(offset: int, payload: Bytes, op: Op) returns (o: Outcome)
      modifies contents
      ensures View(o) == Write(old(View(Running)), offset, payload, op)
    {
      if !WholePages(offset) || |payload| == 0 || !WholePages(|payload|) {
        o := Failed(WriteMisaligned);
      } else if offset < 0 || offset + |payload| > contents.Length {
        o := Failed(OutsideNor);
      } else {
        o := WriteAligned(offset, payload, op);
      }
    }

    method Read(offset: int, length: int, op: Op) returns (data: Bytes, o: Outcome)
      ensures View(o) == Readback(View(Running), offset, length, op)
      ensures o == Running ==> 0 <= offset && 0 <= length && offset + length <= contents.Length
      ensures o == Running ==> data == contents[offset..offset + length]
    {
      data := [];
      if offset < 0 || length < 0 || offset + length > contents.Length {
        return [], Failed(OutsideNor);
      }
      o := Checkpoint(BeforeReadback(op));
      if o != Running { return; }
      data := contents[offset..offset + length];
      o := Checkpoint(AfterReadback(op));
    }
  }
}
