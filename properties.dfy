/**
  What the page-fault handler guarantees over whole runs: the page table
  invokes `page_fault_handler` once per faulting access, in the order the
  accesses happen, so a run is the fold of `Fault` over the sequence of
  faulting pages.
 */
module PagingProperties {
  import opened Paging

  /** Every faulting page is a page of the process. */
  ghost predicate InRange(m: Memory, faults: seq<int>)
  {
    forall i :: 0 <= i < |faults| ==> 0 <= faults[i] < m.npages
  }

  /** The state after the handler has run once for each page of `faults`, in order. */
  function Run(m: Memory, faults: seq<int>): (r: Memory)
    requires Shaped(m) && InRange(m, faults)
    ensures Shaped(r) && r.npages == m.npages && r.nframes == m.nframes
    decreases |faults|
  {
    if faults == [] then m else Run(Fault(m, faults[0]), faults[1..])
  }

  /** How many faults of the run find their page without permissions. */
  function Loads(m: Memory, faults: seq<int>): (n: nat)
    requires Shaped(m) && InRange(m, faults)
    ensures n <= |faults|
    decreases |faults|
  {
    if faults == [] then 0
    else
      (if m.table[faults[0]].bits == PROT_NONE then 1 else 0)
      + Loads(Fault(m, faults[0]), faults[1..])
  }

  /** The pages that currently have no permissions. */
  function Absent(m: Memory): set<int>
  {
    set p | p in m.table && m.table[p].bits == PROT_NONE
  }

  /** Every entry holds one of the values the handler writes, and a mapped page sits in its target frame. */
  ghost predicate EntriesSettled(m: Memory)
    requires Shaped(m)
  {
    forall p :: p in m.table ==>
      && m.table[p].bits in {PROT_NONE, PROT_READ, PROT_READ_WRITE}
      && (m.table[p].bits != PROT_NONE ==> m.table[p].frame == TargetFrame(p, m.nframes))
  }

  /**
    Each usable slot of `freeFrames` holds its initial 0 or a mapped page
    whose target frame it is; the sentinel after the last usable frame and
    the slots beyond it are never written.
   */
  ghost predicate OccupancyTracked(m: Memory)
    requires Shaped(m)
  {
    && (forall f :: 0 <= f < m.nframes ==>
          var q := m.freeFrames[f];
          q == 0 || (q in m.table && TargetFrame(q, m.nframes) == f && m.table[q].bits != PROT_NONE))
    && m.freeFrames[m.nframes] == -1
    && forall f :: m.nframes < f < MaxFrames ==> m.freeFrames[f] == 0
  }

  /**
    The disk log holds only reads, at most one per block, each into the
    block's target frame, and a page is mapped exactly when its block has
    been read.
   */
  ghost predicate DiskMatchesResidency(m: Memory)
    requires Shaped(m)
  {
    && (forall i :: 0 <= i < |m.disk| ==>
          var op := m.disk[i];
          op.DiskRead? && 0 <= op.block < m.npages && op.slot == TargetFrame(op.block, m.nframes))
    && (forall i, j :: 0 <= i < j < |m.disk| ==> m.disk[i] != m.disk[j])
    && forall p :: p in m.table ==>
         (m.table[p].bits != PROT_NONE <==> DiskRead(p, TargetFrame(p, m.nframes)) in m.disk)
  }

  /** The invariant of the handler's state. */
  ghost predicate Consistent(m: Memory)
  {
    && Shaped(m)
    && EntriesSettled(m)
    && OccupancyTracked(m)
    && DiskMatchesResidency(m)
  }

  /** The state `main` leaves behind satisfies the invariant. */
  lemma BootConsistent(npages: int, nframes: int)
    requires 0 < nframes < MaxFrames
    ensures Consistent(Boot(npages, nframes))
    ensures Absent(Boot(npages, nframes)) == Pages(npages)
  {
  }

  /** One fault keeps the invariant. */
  lemma FaultConsistent(m: Memory, page: int)
    requires Consistent(m) && 0 <= page < m.npages
    ensures Consistent(Fault(m, page))
  {
  }

  /** Every run keeps the invariant. */
  lemma {:induction false} RunConsistent(m: Memory, faults: seq<int>)
    requires Consistent(m) && InRange(m, faults)
    ensures Consistent(Run(m, faults))
    decreases |faults|
  {
    if faults != [] {
      FaultConsistent(m, faults[0]);
      RunConsistent(Fault(m, faults[0]), faults[1..]);
    }
  }

  /**
    Over any run, each fault on a page without permissions appends exactly
    one disk read, the other faults touch no block, and no block is ever
    written: the write-back branch of the handler never runs.
   */
  lemma {:induction false} RunDiskTraffic(m: Memory, faults: seq<int>)
    requires Shaped(m) && InRange(m, faults)
    ensures var r := Run(m, faults);
      && |r.disk| == |m.disk| + Loads(m, faults)
      && r.disk[..|m.disk|] == m.disk
      && forall i :: |m.disk| <= i < |r.disk| ==> r.disk[i].DiskRead?
    decreases |faults|
  {
    if faults != [] {
      var m' := Fault(m, faults[0]);
      RunDiskTraffic(m', faults[1..]);
      var r := Run(m', faults[1..]);
      assert r.disk[..|m'.disk|] == m'.disk;
      assert m'.disk[..|m.disk|] == m.disk;
    }
  }

  /**
    Pages are never evicted: a page that has permissions keeps them and its
    frame for the rest of any run, whatever other page is placed in that
    frame; permissions are never lowered, so a read+write page stays
    read+write.
   */
  lemma {:induction false} NeverEvicts(m: Memory, faults: seq<int>, p: int)
    requires Consistent(m) && InRange(m, faults)
    requires p in m.table && m.table[p].bits != PROT_NONE
    ensures var r := Run(m, faults);
      && r.table[p].bits in {PROT_READ, PROT_READ_WRITE}
      && (m.table[p].bits == PROT_READ_WRITE ==> r.table[p].bits == PROT_READ_WRITE)
      && r.table[p].frame == m.table[p].frame
    decreases |faults|
  {
    if faults != [] {
      FaultConsistent(m, faults[0]);
      NeverEvicts(Fault(m, faults[0]), faults[1..], p);
    }
  }

  /**
    A run loads each absent page at most once: the pages still absent at the
    end are those absent at the start less one per load, so no run reads
    more blocks than there were absent pages.
   */
  lemma {:induction false} LoadsBounded(m: Memory, faults: seq<int>)
    requires Shaped(m) && InRange(m, faults)
    ensures var r := Run(m, faults);
      && Absent(r) <= Absent(m)
      && |Absent(r)| == |Absent(m)| - Loads(m, faults)
    decreases |faults|
  {
    if faults != [] {
      var page := faults[0];
      var m' := Fault(m, page);
      if m.table[page].bits == PROT_NONE {
        assert Absent(m') == Absent(m) - {page};
      } else {
        assert Absent(m') == Absent(m);
      }
      LoadsBounded(m', faults[1..]);
    }
  }

  /**
    A page goes from no permissions to read to read+write in at most two
    faults, and from then on a fault on it changes nothing.
   */
  lemma ThirdFaultIsNoOp(m: Memory, page: int)
    requires Shaped(m) && 0 <= page < m.npages
    ensures Fault(Fault(Fault(m, page), page), page) == Fault(Fault(m, page), page)
    ensures m.table[page].bits == PROT_NONE ==>
      Fault(Fault(m, page), page).table[page] == Entry(TargetFrame(page, m.nframes), PROT_READ_WRITE)
  {
  }

  /**
    With four pages and two frames, faulting pages 0 and 2 leaves both
    mapped readable to frame 0: placing a page in a frame does not unmap
    the page that was there, so two pages can share a frame.
   */
  lemma SharedFrame()
    ensures var m := Fault(Fault(Boot(4, 2), 0), 2);
      && m.table[0] == Entry(0, PROT_READ)
      && m.table[2] == Entry(0, PROT_READ)
      && m.freeFrames[0] == 2
      && m.disk == [DiskRead(0, 0), DiskRead(2, 0)]
  {
  }

  /**
    With four pages and two frames, reading pages 0, 1, 2, 3 in turn reads
    four blocks, writes none, and leaves all four pages mapped: more pages
    are resident than there are frames.
   */
  lemma SequentialScan()
    ensures var m := Run(Boot(4, 2), [0, 1, 2, 3]);
      && m.disk == [DiskRead(0, 0), DiskRead(1, 1), DiskRead(2, 0), DiskRead(3, 1)]
      && m.table[0] == Entry(0, PROT_READ) && m.table[1] == Entry(1, PROT_READ)
      && m.table[2] == Entry(0, PROT_READ) && m.table[3] == Entry(1, PROT_READ)
  {
  }

  /** There are `n` page numbers below `n`. */
  lemma {:induction false} PagesCount(n: int)
    ensures |Pages(n)| == if n <= 0 then 0 else n
  {
    if n > 0 {
      PagesCount(n - 1);
      assert n - 1 !in Pages(n - 1);
    }
  }

  /**
    From the state `main` sets up, any run reads one block per page it
    brings in, at most `npages` in all, and writes none.
   */
  lemma BootRunTraffic(npages: int, nframes: int, faults: seq<int>)
    requires 0 < nframes < MaxFrames && InRange(Boot(npages, nframes), faults)
    ensures var r := Run(Boot(npages, nframes), faults);
      && |r.disk| == Loads(Boot(npages, nframes), faults)
      && (faults != [] ==> |r.disk| <= npages)
      && forall i :: 0 <= i < |r.disk| ==> r.disk[i].DiskRead?
  {
    PagesCount(npages);
    BootConsistent(npages, nframes);
    RunDiskTraffic(Boot(npages, nframes), faults);
    LoadsBounded(Boot(npages, nframes), faults);
  }
}
