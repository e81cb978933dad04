# virtmem page-fault handler, modelled in Dafny

virtmem simulates demand-paged virtual memory: a page table with `npages`
virtual pages is backed by `nframes` physical frames and a virtual disk with
one block per page. Whenever an access lacks permission, the page table calls
`page_fault_handler(pt, page)` in `main.c`. This project models that handler
and the configuration step of `main` that precedes the simulation.

What the handler does, and what the model proves about it:

- A fault on a page with no permissions maps it read-only into frame
  `page % nframes` and reads its block from disk into that frame.
- A fault on a read-only page upgrades it to read+write in the same frame,
  with no disk traffic.
- Any other fault changes nothing.
- Both effective cases record the page in `freeFrames[page % nframes]`.
- The write-back branch (main.c:41-46) never runs. Its guard tests a second
  read of the same entry, whose bits were just found to be 0.
- So no block is ever written, and no page is ever evicted. A page placed in
  a frame does not unmap the frame's previous occupant, so two pages can
  share a frame, and more pages can be resident than there are frames.

Files:

- `paging.dfy` (module `Paging`): the state as a value (`Memory`: page
  count, frame count, page table, `freeFrames`, disk log), one fault as the
  function `Fault`, the argument check and frame clamp of `main` as
  `Configure`, and the state `main` leaves behind as `Boot`.
- `simulator.dfy` (module `Simulator`): the program's globals as the class
  `VirtualMemory`, whose `freeFrames` is a 1024-element array updated in
  place. `PageFaultHandler` follows the C code statement by statement and is
  proved to produce `Fault` of the previous state. The `Start` constructor
  and `Launch` follow `main`.
- `properties.dfy` (module `PagingProperties`): runs of faults (`Run`), the
  handler's state invariant (`Consistent`), and lemmas about runs.

The page table and the virtual disk are external libraries whose source is
not part of this model. The page table is a map from page to
`Entry(frame, bits)`, and the disk is a log of `DiskRead`/`DiskWrite`
records. Each record names a block and a page-sized slot of physical memory.
The permission values are PROT_READ = 1 and PROT_WRITE = 2, as on Linux.
`page_table_create` is taken to start every page at `Entry(0, 0)`.

The code does no page replacement. Its usage line (main.c:69) offers the
policies `rand|fifo|lru|custom`, but the chosen `algorithm` (main.c:75) is
never read: the frame is always `page % nframes`. There is no search for a
free frame, no eviction, no write-back and no fault, read or write counter.
A frame is not exclusive to one page (`SharedFrame`). With 4 pages and
2 frames, faulting pages 0, 1, 2, 3 in turn reads four blocks, writes none,
and leaves all four pages mapped (`SequentialScan`). The numeric arguments
are not validated.

## Model

| member | source | states |
|---|---|---|
| `Paging.TargetFrame` | main.c:36 | the frame a page is placed in lies in `[0, nframes)`; a page below `nframes` gets its own number as frame |
| `Paging.Fault` | main.c:27-64 | a fault on a page with bits 0 leaves its entry `(page % nframes, PROT_READ)` and appends exactly one disk read, of block `page` into frame `page % nframes`, and no write; a fault with bits 1 leaves `(page % nframes, PROT_READ_WRITE)` (read+write, 3) and no disk traffic; in both cases `freeFrames[page % nframes] == page` and no other slot changes; no other page's entry changes; any other bits leave the whole state unchanged; the shape of the state is kept |
| `Paging.Configure` | main.c:68-79 | usage exit exactly when the argument count is not 5; otherwise the page count and algorithm are kept and the frame count becomes the smaller of the two counts |
| `Simulator.VirtualMemory.Start` | main.c:73-82 | stores the counts and the algorithm as `Configure` decides; the resulting state is `Boot`: `freeFrames` all 0 except -1 at index `nframes`, every page without permissions, empty disk log |
| `Simulator.VirtualMemory.PageFaultHandler` | main.c:27-64 | the in-place update of the page table, `freeFrames` and disk log yields exactly `Fault` of the previous state, and the object invariant is kept |
| `Simulator.Launch` | main.c:68-82 | exit status 1 (`UsageExit`) with no state created exactly when the argument count is not 5; otherwise a fresh object in the `Boot` state with the clamped frame count |
| `PagingProperties.Run` | main.c:92 | the handler registered with the page table, applied to a sequence of faults in order, keeps the page and frame counts and the state's shape |
| `PagingProperties.BootConsistent` | main.c:82 | the state after start-up satisfies the handler's invariant, and every page is absent |
| `PagingProperties.FaultConsistent` | main.c:34-59 | one fault preserves the invariant: entry bits are 0, 1 or 3; a mapped page sits in frame `page % nframes`; each usable `freeFrames` slot holds 0 or a mapped page of that frame; the sentinel is never overwritten; the disk log holds only reads, one per mapped page and no duplicates |
| `PagingProperties.RunConsistent` | main.c:27-64 | every sequence of faults preserves that invariant |
| `PagingProperties.RunDiskTraffic` | main.c:41-50 | over any run, the disk log grows by exactly one read per fault that finds its page absent; earlier records are kept and no write is ever appended |
| `PagingProperties.NeverEvicts` | main.c:41-52 | a page that has permissions keeps them, and its frame, for the rest of any run: it stays read-only or read+write, and a read+write page stays read+write |
| `PagingProperties.LoadsBounded` | main.c:34-52 | the pages absent after a run are a subset of those absent before, with exactly one fewer per load, so each page is loaded at most once |
| `PagingProperties.ThirdFaultIsNoOp` | main.c:34-61 | a third fault on the same page changes nothing; a page with no permissions becomes read+write after two faults |
| `PagingProperties.SharedFrame` | main.c:48-52 | with 4 pages and 2 frames, faulting pages 0 and 2 leaves both mapped readable to frame 0 and `freeFrames[0] == 2`: frame exclusivity does not hold |
| `PagingProperties.SequentialScan` | main.c:48-52 | with 4 pages and 2 frames, faulting pages 0, 1, 2, 3 reads the four blocks into frames 0, 1, 0, 1, writes none, and leaves all four pages mapped |
| `PagingProperties.BootRunTraffic` | main.c:34-50 | from the start-up state, any run reads one block per load, at most `npages` blocks, and writes none |

## Left out

- The page table and disk libraries (`page_table_get_entry`, `page_table_set_entry`, `disk_read`, `disk_write`, `page_table_create`, `disk_open`): their source is not part of this model. They are a map field and a transfer log.
- Physical memory contents and `PAGE_SIZE` offsets: only the block and the page-sized slot of each transfer are recorded.
- `atoi` parsing of the arguments (main.c:73-74): the counts are given as integers, with no validation, as in the code.
- Failure to create the disk or the page table (main.c:85-96): these are I/O failures.
- The workload programs and their selection by name (main.c:98-114), including the exit for an unknown program name: they only drive accesses.
- `printf`/`fprintf` output (main.c:63, 69, 87, 94, 112), and the final re-read of the entry into unused locals (main.c:61).
- `Simulator.VirtualMemory.Start`: requires the clamped frame count to lie in `[0, 1024)`. Outside that range, main.c:82 writes outside `freeFrames`, which C leaves undefined.
- `Simulator.VirtualMemory.PageFaultHandler`: requires a positive frame count. With 0 frames, main.c:36 divides by zero, which C leaves undefined.
- C `int` overflow: page and frame numbers are unbounded integers. Apart from the byte offsets left out above, the handler computes only `page % nframes` on values below `npages`; the live offset `myframe*PAGE_SIZE` (main.c:50) stays below `1024*PAGE_SIZE`.
