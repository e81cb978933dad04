/**
  The state the virtmem page-fault handler works on, and what one fault does
  to it, as values.

  The handler (main.c) reads and writes three things: the page table (an
  external object that maps every virtual page to a frame and a set of
  permission bits), the global occupancy array `freeFrames`, and the
  virtual disk. Here the page table is a map from page number to `Entry`,
  `freeFrames` is a sequence of `MaxFrames` integers, and the disk is the
  log of the block transfers issued so far. Physical memory contents are
  not modelled: a transfer records only which block and which page-sized
  slot of physical memory it names.
 */
module Paging {

  /** Size of the global `freeFrames` array. */
  const MaxFrames: int := 1024

  /** Permission bits, with the Linux values of PROT_READ and PROT_WRITE. */
  const PROT_NONE: int := 0
  const PROT_READ: int := 1
  const PROT_WRITE: int := 2
  /** PROT_READ | PROT_WRITE: the two bits are disjoint, so their or is their sum. */
  const PROT_READ_WRITE: int := PROT_READ + PROT_WRITE

  /** Exit status of `main` when it is called with the wrong number of arguments. */
  const UsageExit: int := 1

  /** A page-table entry: the frame the page is bound to and its permission bits. */
  datatype Entry = Entry(frame: int, bits: int)

  /**
    One call into the virtual disk: `block` is the disk block, `slot` the
    page-sized slot of physical memory the data is copied from or into
    (the byte offset passed to the disk divided by PAGE_SIZE).
   */
  datatype DiskOp =
    | DiskRead(block: int, slot: int)
    | DiskWrite(block: int, slot: int)

  /**
    Everything a fault can observe or change: the page count, the (clamped)
    frame count, the page table, the occupancy array and the disk log.
   */
  datatype Memory = Memory(
    npages: int,
    nframes: int,
    table: map<int, Entry>,
    freeFrames: seq<int>,
    disk: seq<DiskOp>)

  /**
    The shape `main` and the page table give the state before any fault:
    `freeFrames` has its fixed size, the frame count is positive and leaves
    room for the sentinel slot, and the page table has one entry per page.
   */
  ghost predicate Shaped(m: Memory)
  {
    && |m.freeFrames| == MaxFrames
    && 0 < m.nframes < MaxFrames
    && forall p :: p in m.table <==> 0 <= p < m.npages
  }

  /**
    The frame a page is placed in: the mapping is direct. The page is never
    negative, so Dafny's `%` agrees with C's here.
   */
  function TargetFrame(page: int, nframes: int): (f: int)
    requires 0 <= page && 0 < nframes
    ensures 0 <= f < nframes
    ensures page < nframes ==> f == page
  {
    page % nframes
  }

  /**
    What one call of `page_fault_handler(pt, page)` does (main.c:27-64).

    The page's entry is read; if it has no permissions the entry is read a
    second time (main.c:38) and the write-back branch is guarded by that
    second value being non-zero, so it is never taken; otherwise the page is
    mapped read-only to its target frame and its block is read from disk.
    A read-only page is upgraded to read+write in place. Any other value of
    the bits changes nothing.
   */
  function Fault(m: Memory, page: int): (r: Memory)
    requires Shaped(m) && 0 <= page < m.npages
    ensures Shaped(r)
    ensures r.npages == m.npages && r.nframes == m.nframes
    // a page without permissions becomes readable in its target frame,
    // with exactly one disk read of its own block into that frame and no write
    ensures m.table[page].bits == PROT_NONE ==>
      && r.table[page] == Entry(TargetFrame(page, m.nframes), PROT_READ)
      && r.disk == m.disk + [DiskRead(page, TargetFrame(page, m.nframes))]
    // a read-only page gains write permission in the same frame, without disk traffic
    ensures m.table[page].bits == PROT_READ ==>
      && r.table[page] == Entry(TargetFrame(page, m.nframes), PROT_READ_WRITE)
      && r.disk == m.disk
    // both cases record the page as the occupant of its frame and no other slot changes
    ensures m.table[page].bits in {PROT_NONE, PROT_READ} ==>
      && r.freeFrames[TargetFrame(page, m.nframes)] == page
      && forall f :: 0 <= f < MaxFrames && f != TargetFrame(page, m.nframes) ==>
           r.freeFrames[f] == m.freeFrames[f]
    // no other entry of the page table changes, the previous occupant included
    ensures forall p :: p in m.table && p != page ==> r.table[p] == m.table[p]
    // any other permission value leaves the whole state as it was
    ensures m.table[page].bits !in {PROT_NONE, PROT_READ} ==> r == m
  {
    var bits := m.table[page].bits;
    if bits == PROT_NONE then
      var myframe := page % m.nframes;
      var newBits := m.table[page].bits;
      var occupant := m.freeFrames[myframe];
      var marked := m.freeFrames[page % m.nframes := page];
      if occupant != page && newBits != 0 then
        // write the old occupant back, read the page, give the page read
        // access and strip the old occupant (main.c:42-45)
        m.(table := m.table[page := Entry(myframe, PROT_READ)][occupant := Entry(0, 0)],
           disk := m.disk + [DiskWrite(occupant, page), DiskRead(page, page)],
           freeFrames := marked)
      else
        m.(table := m.table[page := Entry(myframe, PROT_READ)],
           disk := m.disk + [DiskRead(page, myframe)],
           freeFrames := marked)
    else if bits == PROT_READ then
      m.(table := m.table[page := Entry(page % m.nframes, PROT_READ_WRITE)],
         freeFrames := m.freeFrames[page % m.nframes := page])
    else
      m
  }

  /** What `main` decides before any simulation state exists. */
  datatype Startup =
    | Usage
    | Start(npages: int, nframes: int, algorithm: string)

  /**
    The argument check and frame clamp of `main` (main.c:68-79), with the
    already parsed values of argv[1] to argv[3]. `Usage` ends the process
    with status `UsageExit`. The frame count that results is the smaller of
    the two counts.
   */
  function Configure(argc: int, npages: int, nframes: int, algorithm: string): (s: Startup)
    ensures s.Usage? <==> argc != 5
    ensures s.Start? ==>
      && s.npages == npages && s.algorithm == algorithm
      && s.nframes <= npages && s.nframes <= nframes
      && (s.nframes == nframes || s.nframes == npages)
  {
    if argc != 5 then Usage
    else Start(npages, if nframes > npages then npages else nframes, algorithm)
  }

  /** The page numbers 0 .. n-1. */
  function Pages(n: int): (s: set<int>)
    ensures forall p :: p in s <==> 0 <= p < n
  {
    if n <= 0 then {} else Pages(n - 1) + {n - 1}
  }

  /**
    The state right after `main` has written the sentinel (main.c:82) and
    created the disk and the page table: `freeFrames` is all zeros except
    the sentinel -1 at index `nframes`, every page has no permissions, and
    no block has been transferred yet.
   */
  function Boot(npages: int, nframes: int): Memory
    requires 0 <= nframes < MaxFrames
  {
    Memory(npages, nframes,
           map p | p in Pages(npages) :: Entry(0, PROT_NONE),
           seq(MaxFrames, i => if i == nframes then -1 else 0),
           [])
  }
}
