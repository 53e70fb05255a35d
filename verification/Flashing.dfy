/**
 * Erase, write and read back one region; then what a sequence of such regions
 * leaves on the chip wherever power is cut.
 */
module Flashing {
  import opened Common
  import opened Layout
  import opened Nor

  datatype RegionWrite = RegionWrite(offset: int, span: int, payload: Bytes, op: Op) {
    /** A region of whole sectors on a chip of `size` bytes, with a payload that fits it. */
    predicate Valid(size: nat) {
      && 0 <= offset && WholeSectors(offset)
      && 0 < span && WholeSectors(span)
      && offset + span <= size
      && |payload| <= span
    }
    function End(): int { offset + span }
    predicate Covers(i: int) { offset <= i < offset + span }
  }

  function Padded(payload: Bytes, span: nat): (r: Bytes)
    requires |payload| <= span
    ensures |r| == span
  {
    payload + Erased(span - |payload|)
  }

  /** Round a payload up to whole pages; an empty payload stays empty. */
  function PagePadded(payload: Bytes): (r: Bytes)
    ensures WholePages(|r|) && |payload| <= |r| < |payload| + 0x100
    ensures forall i :: 0 <= i < |r| ==> r[i] == if i < |payload| then payload[i] else 0xff
    ensures |r| == 0 <==> |payload| == 0
  {
    if |payload| == 0 then [] else payload + Erased((|payload| + 0x100 - 1) / 0x100 * 0x100 - |payload|)
  }

  /** Compare digests of what is on the chip and what should be. */
  function Verify(sha: Hasher, m: Chip, offset: int, expected: Bytes): (r: Chip)
    ensures r.flash == m.flash && r.fault == m.fault
  {
    if m.outcome == Running && 0 <= offset && offset + |expected| <= |m.flash| &&
       sha(m.flash[offset..offset + |expected|]) != sha(expected)
    then m.(outcome := Failed(ReadbackMismatch)) else m
  }

  ghost function WriteAndVerify(sha: Hasher, m: Chip, w: RegionWrite): (r: Chip)
    ensures |r.flash| == |m.flash| && r.fault == m.fault
  {
    if m.outcome != Running then m
    else if |w.payload| > w.span then m.(outcome := Failed(ExceedsSpan))
    else
      var erased := Erase(m, w.offset, w.span, w.op);
      var paged := PagePadded(w.payload);
      var written := if paged == [] then erased else Write(erased, w.offset, paged, w.op);
      Verify(sha, Readback(written, w.offset, w.span, w.op), w.offset, Padded(w.payload, w.span))
  }

  /* ---- One region under every fault ---- */

  /** The event belongs to the erase, write or readback labelled `op`. */
  predicate Concerns(e: Option<Event>, op: Op) {
    match e
    case Some(BeforeErase(l)) => l == op
    case Some(AfterErase(l)) => l == op
    case Some(BeforeEraseSector(l, _)) => l == op
    case Some(DuringEraseSector(l, _)) => l == op
    case Some(AfterEraseSector(l, _)) => l == op
    case Some(BeforeWrite(l)) => l == op
    case Some(AfterWrite(l)) => l == op
    case Some(BeforeWritePage(l, _)) => l == op
    case Some(DuringWritePage(l, _)) => l == op
    case Some(AfterWritePage(l, _)) => l == op
    case Some(BeforeReadback(l)) => l == op
    case Some(AfterReadback(l)) => l == op
    case _ => false
  }

  /** The event comes once the last page of the region has been programmed. */
  predicate PastLastPage(e: Option<Event>, w: RegionWrite) {
    match e
    case Some(AfterWritePage(l, i)) => l == w.op && i + 1 == Pages(|PagePadded(w.payload)|)
    case Some(AfterWrite(l)) => l == w.op
    case Some(BeforeReadback(l)) => l == w.op
    case Some(AfterReadback(l)) => l == w.op
    case _ => false
  }

  /** Sectors are whole pages, so rounding a payload up to pages keeps it inside its region. */
  lemma PagesFit(w: RegionWrite, size: nat)
    requires w.Valid(size)
    ensures |PagePadded(w.payload)| <= w.span && WholePages(w.offset)
  {
    SectorsArePages(w.offset);
    SectorsArePages(w.span);
    hide WholePages, WholeSectors, PagePadded;
    PagesBelow(|PagePadded(w.payload)|, w.span);
  }

  lemma ErasedAccepts(c: Bytes, at: nat, payload: Bytes)
    requires at + |payload| <= |c| && WholePages(|payload|)
    requires forall i :: at <= i < at + |payload| ==> c[i] == 0xff
    ensures FirstRefused(c, at, payload) == Pages(|payload|)
  {
  }

  /** A write no page of which is refused: only power loss can stop it, leaving a prefix. */
  lemma UnrefusedWrite(m: Chip, offset: nat, paged: Bytes, w: RegionWrite) returns (k: nat)
    requires paged == PagePadded(w.payload) && offset + |paged| <= |m.flash|
    requires FirstRefused(m.flash, offset, paged) == Pages(|paged|)
    ensures k <= |paged|
    ensures var r := WritePages(m, offset, paged, w.op);
            && r.flash == Put(m.flash, offset, paged[..k])
            && (r.outcome == m.outcome || (r.outcome == PowerLoss && Concerns(m.fault.failAt, w.op)))
            && (r.outcome != PowerLoss || PastLastPage(m.fault.failAt, w) ==> k == |paged|)
  {
    hide WholePages, Pages, PagePadded;
    assert paged[..|paged|] == paged;
    k := match WriteCut(m.fault, w.op, Pages(|paged|), Pages(|paged|))
      case Some(k) => k
      case None => |paged|;
  }

  lemma PutOnErased(c: Bytes, w: RegionWrite, k: nat)
    requires w.Valid(|c|) && k <= |PagePadded(w.payload)| <= w.span
    ensures var d := Put(Put(c, w.offset, Erased(w.span)), w.offset, PagePadded(w.payload)[..k]);
            && AgreeOutside(c, d, w.offset, w.End())
            && (k == |PagePadded(w.payload)| ==> d == Put(c, w.offset, Padded(w.payload, w.span)))
  {
    hide WholePages, WholeSectors;
  }

  /** Writing right after a complete erase: never refused, so only power loss can stop it. */
  lemma WriteAfterErase(c: Bytes, fault: Fault, w: RegionWrite)
    requires w.Valid(|c|) && |w.payload| > 0 && |PagePadded(w.payload)| <= w.span && WholePages(w.offset)
    ensures var m := Chip(Put(c, w.offset, Erased(w.span)), fault, Running);
            var r := Write(m, w.offset, PagePadded(w.payload), w.op);
            && (r.outcome == Running || (r.outcome == PowerLoss && Concerns(fault.failAt, w.op)))
            && AgreeOutside(c, r.flash, w.offset, w.End())
            && (r.outcome == Running || PastLastPage(fault.failAt, w)
                ==> r.flash == Put(c, w.offset, Padded(w.payload, w.span)))
  {
    hide WholePages, WholeSectors, Pages, WritePages, Put, PagePadded, AgreeOutside;
    var paged := PagePadded(w.payload);
    var m := Chip(Put(c, w.offset, Erased(w.span)), fault, Running);
    ErasedAccepts(m.flash, w.offset, paged);
    var k := UnrefusedWrite(m, w.offset, paged, w);
    PutOnErased(c, w, k);
  }

  /**
   * One region, any fault: the readback never disagrees, nothing outside the region moves,
   * and once the last page is in, the region holds its padded payload.
   */
  lemma RegionUnderFault(sha: Hasher, m: Chip, w: RegionWrite)
    requires m.outcome == Running && w.Valid(|m.flash|)
    ensures var r := WriteAndVerify(sha, m, w);
            && (r.outcome == Running || r.outcome == PowerLoss)
            && AgreeOutside(m.flash, r.flash, w.offset, w.End())
            && (r.outcome == PowerLoss ==> Concerns(m.fault.failAt, w.op))
            && (r.outcome == Running || PastLastPage(m.fault.failAt, w)
                ==> r.flash == Put(m.flash, w.offset, Padded(w.payload, w.span)))
  {
    PagesFit(w, |m.flash|);
    hide WholePages, WholeSectors, Sectors, Pages, PagePadded, Write;
    var erased := Erase(m, w.offset, w.span, w.op);
    var target := Put(m.flash, w.offset, Padded(w.payload, w.span));
    PutReads(m.flash, w.offset, Padded(w.payload, w.span));
    if |w.payload| == 0 {
      assert Padded(w.payload, w.span) == Erased(w.span);
    } else {
      WriteAfterErase(m.flash, m.fault, w);
    }
  }

  /* ---- A sequence of regions under every cut ---- */

  /** Valid regions, pairwise disjoint and separately labelled. */
  ghost predicate Plan(size: nat, ws: seq<RegionWrite>) {
    && (forall j :: 0 <= j < |ws| ==> ws[j].Valid(size))
    && (forall j, k :: 0 <= j < k < |ws| ==> ws[j].End() <= ws[k].offset || ws[k].End() <= ws[j].offset)
    && (forall j, k :: 0 <= j < k < |ws| ==> ws[j].op != ws[k].op)
  }

  /** Outside the erase ranges of the plan. */
  ghost predicate Untouched(ws: seq<RegionWrite>, i: int) {
    forall j :: 0 <= j < |ws| ==> !ws[j].Covers(i)
  }

  /** The chip after every write of the plan has completed, in order. */
  ghost function Apply(c: Bytes, ws: seq<RegionWrite>): (d: Bytes)
    requires Plan(|c|, ws)
    ensures |d| == |c|
  {
    if ws == [] then c
    else
      var w := ws[|ws| - 1];
      Put(Apply(c, ws[..|ws| - 1]), w.offset, Padded(w.payload, w.span))
  }

  /** The event belongs to none of the plan's regions. */
  ghost predicate Elsewhere(e: Option<Event>, ws: seq<RegionWrite>) {
    forall j :: 0 <= j < |ws| ==> !Concerns(e, ws[j].op)
  }

  /** An event inside a region of the plan tells how many regions are complete. */
  ghost predicate Located(e: Option<Event>, ws: seq<RegionWrite>, done: nat) {
    forall j :: 0 <= j < |ws| && Concerns(e, ws[j].op) ==> done == if PastLastPage(e, ws[j]) then j + 1 else j
  }

  /**
   * A state that power loss at event e can leave behind: the first `done` regions are final and the chip is
   * otherwise as it was, except that region `done` may be in any condition if e falls in it before its last page.
   */
  ghost predicate CutAt(c: Bytes, ws: seq<RegionWrite>, e: Option<Event>, done: nat, d: Bytes)
    requires Plan(|c|, ws) && done <= |ws|
  {
    var base := Apply(c, ws[..done]);
    && Located(e, ws, done)
    && (|| d == base
        || (done < |ws| && Concerns(e, ws[done].op) && !PastLastPage(e, ws[done]) &&
            AgreeOutside(base, d, ws[done].offset, ws[done].End())))
  }

  ghost predicate CutState(c: Bytes, ws: seq<RegionWrite>, e: Option<Event>, d: Bytes)
    requires Plan(|c|, ws)
  {
    exists done :: 0 <= done <= |ws| && CutAt(c, ws, e, done, d)
  }

  /** A run that never raises an MTD error and has performed the first `done` writes unless power was lost. */
  ghost predicate Tracks(c: Bytes, ws: seq<RegionWrite>, done: nat, m: Chip)
    requires Plan(|c|, ws)
  {
    && |m.flash| == |c|
    && done <= |ws|
    && (m.outcome == Running || m.outcome == PowerLoss)
    && (m.outcome == Running ==> m.flash == Apply(c, ws[..done]))
    && (m.outcome == PowerLoss ==> m.fault.failAt.Some? && CutState(c, ws, m.fault.failAt, m.flash))
  }

  lemma TracksMark(c: Bytes, ws: seq<RegionWrite>, done: nat, m: Chip, e: Event)
    requires Plan(|c|, ws) && Tracks(c, ws, done, m) && Elsewhere(Some(e), ws)
    ensures Tracks(c, ws, done, Mark(m, e))
  {
    if m.outcome == Running && m.fault.failAt == Some(e) {
      assert CutAt(c, ws, m.fault.failAt, done, m.flash);
    }
  }

  lemma TracksReadback(c: Bytes, ws: seq<RegionWrite>, done: nat, m: Chip, p: Partition, op: Op)
    requires Plan(|c|, ws) && Tracks(c, ws, done, m) && p.End() <= |c|
    requires forall j :: 0 <= j < |ws| ==> ws[j].op != op
    ensures Tracks(c, ws, done, Readback(m, p.offset, p.size, op))
  {
    if m.outcome == Running {
      TracksMark(c, ws, done, m, BeforeReadback(op));
      TracksMark(c, ws, done, Mark(m, BeforeReadback(op)), AfterReadback(op));
    }
  }

  lemma OneRegion(e: Option<Event>, ws: seq<RegionWrite>, done: nat)
    requires done < |ws| && Concerns(e, ws[done].op)
    requires forall j, k :: 0 <= j < k < |ws| ==> ws[j].op != ws[k].op
    ensures Located(e, ws, if PastLastPage(e, ws[done]) then done + 1 else done)
  {
  }

  /** The next write of a plan moves the run one region on, whatever the fault. */
  lemma TracksWrite(sha: Hasher, c: Bytes, ws: seq<RegionWrite>, done: nat, m: Chip)
    requires Plan(|c|, ws) && Tracks(c, ws, done, m) && done < |ws|
    ensures Tracks(c, ws, done + 1, WriteAndVerify(sha, m, ws[done]))
  {
    hide WholePages, WholeSectors;
    if m.outcome == Running {
      RegionUnderFault(sha, m, ws[done]);
      var r := WriteAndVerify(sha, m, ws[done]);
      assert ws[..done + 1][..done] == ws[..done];
      if r.outcome == PowerLoss {
        OneRegion(m.fault.failAt, ws, done);
        if PastLastPage(m.fault.failAt, ws[done]) {
          assert CutAt(c, ws, m.fault.failAt, done + 1, r.flash);
        } else {
          assert CutAt(c, ws, m.fault.failAt, done, r.flash);
        }
      }
    }
  }

  /** A completed plan holds, in each region, that region's padded payload. */
  lemma {:induction false} AppliedInside(c: Bytes, ws: seq<RegionWrite>, j: nat, i: nat)
    requires Plan(|c|, ws) && j < |ws| && ws[j].Covers(i)
    ensures i < |c| && Apply(c, ws)[i] == Padded(ws[j].payload, ws[j].span)[i - ws[j].offset]
  {
    hide WholePages, WholeSectors, Put, Padded;
    if j < |ws| - 1 {
      AppliedInside(c, ws[..|ws| - 1], j, i);
      assert !ws[|ws| - 1].Covers(i);
    }
  }

  /** A completed plan leaves every byte outside its regions as it was. */
  lemma {:induction false} AppliedOutside(c: Bytes, ws: seq<RegionWrite>, i: nat)
    requires Plan(|c|, ws) && i < |c|
    requires Untouched(ws, i)
    ensures Apply(c, ws)[i] == c[i]
  {
    hide WholePages, WholeSectors, Put, Padded;
    if ws != [] {
      assert !ws[|ws| - 1].Covers(i);
      AppliedOutside(c, ws[..|ws| - 1], i);
    }
  }

  lemma AppliedRegion(c: Bytes, ws: seq<RegionWrite>, j: nat)
    requires Plan(|c|, ws) && j < |ws|
    ensures Apply(c, ws)[ws[j].offset..ws[j].End()] == Padded(ws[j].payload, ws[j].span)
  {
    hide WholePages, WholeSectors;
    forall p | ws[j].offset <= p < ws[j].End()
      ensures Apply(c, ws)[p] == Padded(ws[j].payload, ws[j].span)[p - ws[j].offset]
    {
      AppliedInside(c, ws, j, p);
    }
  }

  /** A byte of the last region can only differ once all the other regions have been completed. */
  lemma LastRegionLast(c: Bytes, ws: seq<RegionWrite>, e: Option<Event>, done: nat, d: Bytes, i: int)
    requires Plan(|c|, ws) && ws != [] && done <= |ws| && CutAt(c, ws, e, done, d)
    requires ws[|ws| - 1].Covers(i) && d[i] != c[i]
    ensures done >= |ws| - 1
  {
    hide WholePages, WholeSectors;
    if done < |ws| - 1 {
      forall j | 0 <= j <= done ensures !ws[j].Covers(i) {
        assert ws[j].End() <= ws[|ws| - 1].offset || ws[|ws| - 1].End() <= ws[j].offset;
      }
      AppliedOutside(c, ws[..done], i);
    }
  }

  lemma SliceAgrees(c: Bytes, d: Bytes, lo: int, hi: int, from: nat, to: nat)
    requires AgreeOutside(c, d, lo, hi) && from <= to <= |c| && (to <= lo || hi <= from)
    ensures c[from..to] == d[from..to]
  {
  }

  /**
   * Activation last. If, at any cut, the last region of a plan differs from the chip before the run,
   * then every other region is already final.
   */
  lemma ActivationLast(c: Bytes, ws: seq<RegionWrite>, e: Option<Event>, d: Bytes, i: int, j: nat)
    requires Plan(|c|, ws) && ws != [] && CutState(c, ws, e, d)
    requires ws[|ws| - 1].Covers(i) && d[i] != c[i]
    requires j < |ws| - 1
    ensures |d| == |c| && d[ws[j].offset..ws[j].End()] == Padded(ws[j].payload, ws[j].span)
  {
    hide WholePages, WholeSectors;
    var done :| 0 <= done <= |ws| && CutAt(c, ws, e, done, d);
    LastRegionLast(c, ws, e, done, d, i);
    AppliedRegion(c, ws[..done], j);
    if d != Apply(c, ws[..done]) {
      SliceAgrees(Apply(c, ws[..done]), d, ws[done].offset, ws[done].End(), ws[j].offset, ws[j].End());
    }
  }

  /** No cut ever touches a byte outside the regions of the plan. */
  lemma CutFrame(c: Bytes, ws: seq<RegionWrite>, e: Option<Event>, d: Bytes, i: int)
    requires Plan(|c|, ws) && CutState(c, ws, e, d) && 0 <= i < |c|
    requires Untouched(ws, i)
    ensures |d| == |c| && d[i] == c[i]
  {
    hide WholePages, WholeSectors;
    var done :| 0 <= done <= |ws| && CutAt(c, ws, e, done, d);
    AppliedOutside(c, ws[..done], i);
  }

  /** Running the whole plan again from any cut state gives what one uncut run gives. */
  lemma RetryConverges(c: Bytes, ws: seq<RegionWrite>, d: Bytes)
    requires |c| == |d| && Plan(|c|, ws)
    requires forall i :: 0 <= i < |c| && Untouched(ws, i) ==> d[i] == c[i]
    ensures Apply(d, ws) == Apply(c, ws)
  {
    hide WholePages, WholeSectors;
    forall i | 0 <= i < |c| ensures Apply(d, ws)[i] == Apply(c, ws)[i] {
      if j: nat :| j < |ws| && ws[j].Covers(i) {
        AppliedInside(c, ws, j, i);
        AppliedInside(d, ws, j, i);
      } else {
        AppliedOutside(c, ws, i);
        AppliedOutside(d, ws, i);
      }
    }
  }

  /* ---- Coarse and fine fault injection ---- */

  predicate Physical(e: Option<Event>) {
    e.Some? && (e.value.BeforeEraseSector? || e.value.DuringEraseSector? || e.value.AfterEraseSector? ||
                e.value.BeforeWritePage? || e.value.DuringWritePage? || e.value.AfterWritePage?)
  }

  /** The fine-grained fault that cuts where a coarse one does: a coarse run never reaches a physical event. */
  function Fine(f: Fault): Fault {
    Fault(if Physical(f.failAt) then None else f.failAt, true)
  }

  function FineChip(m: Chip): Chip {
    m.(fault := Fine(m.fault))
  }

  lemma FineCuts(f: Fault, op: Op, n: nat, refused: nat)
    requires !f.physical
    ensures EraseCut(Fine(f), op, n) == EraseCut(f, op, n)
    ensures refused <= n ==> WriteCut(Fine(f), op, n, refused) == WriteCut(f, op, n, refused)
  {
  }

  lemma CoarseEraseIsFine(m: Chip, offset: int, length: int, op: Op)
    requires !m.fault.physical
    ensures Erase(FineChip(m), offset, length, op) == FineChip(Erase(m, offset, length, op))
  {
    if WholeSectors(length) && length >= 0 {
      FineCuts(m.fault, op, Sectors(length), 0);
    }
    hide WholeSectors, Sectors, Put, EraseCut;
  }

  lemma CoarseWriteIsFine(m: Chip, offset: int, payload: Bytes, op: Op)
    requires !m.fault.physical
    ensures Write(FineChip(m), offset, payload, op) == FineChip(Write(m, offset, payload, op))
  {
    if WholePages(|payload|) && 0 <= offset && offset + |payload| <= |m.flash| {
      FineCuts(m.fault, op, Pages(|payload|), FirstRefused(m.flash, offset, payload));
    }
    hide WholePages, Pages, Put, WriteCut, RefusesFrom;
  }

  /** Fault injection without physical steps ends, cut or not, where some fine-grained injection ends. */
  lemma CoarseRegionIsFine(sha: Hasher, m: Chip, w: RegionWrite)
    requires !m.fault.physical
    ensures WriteAndVerify(sha, FineChip(m), w) == FineChip(WriteAndVerify(sha, m, w))
  {
    hide WholePages, WholeSectors, Erase, Write, PagePadded;
    CoarseEraseIsFine(m, w.offset, w.span, w.op);
    CoarseWriteIsFine(Erase(m, w.offset, w.span, w.op), w.offset, PagePadded(w.payload), w.op);
  }
}
