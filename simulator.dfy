/**
  The virtmem process state as main.c keeps it: globals that `main` sets up
  once and that `page_fault_handler` updates in place on every fault.

  The page table and the virtual disk are external objects in the program;
  here they are a map field and a log field of the same object, updated
  where the program calls `page_table_set_entry`, `disk_read` and
  `disk_write`.
 */
module Simulator {
  import opened Paging

  class VirtualMemory {
    var npages: int
    var nframes: int
    /** The replacement policy named on the command line; stored, never consulted. */
    var algorithm: string
    /** `freeFrames[f]` is the page last placed in frame `f`. */
    const freeFrames: array<int>
    /** The page table: every page's frame and permission bits. */
    var pageTable: map<int, Entry>
    /** Every block transfer issued to the virtual disk, oldest first. */
    var diskLog: seq<DiskOp>

    ghost predicate Valid()
      reads this
    {
      && freeFrames.Length == MaxFrames
      && 0 <= nframes < MaxFrames
      && forall p :: p in pageTable <==> 0 <= p < npages
    }

    /** The state as a value, to be compared with the pure model. */
    function Abstract(): Memory
      reads this, freeFrames
    {
      Memory(npages, nframes, pageTable, freeFrames[..], diskLog)
    }

    /**
      `main` after the argument-count check (main.c:73-82, then the disk and
      the page table are created): the values are stored, the frame count is
      clamped to the page count and the sentinel -1 is written after the last
      usable frame. C gives no meaning to that write outside the array,
      hence the requires.
     */
    constructor Start(npages: int, nframes: int, algorithm: string)
      requires 0 <= Configure(5, npages, nframes, algorithm).nframes < MaxFrames
      ensures Valid() && fresh(freeFrames)
      ensures Configure(5, npages, nframes, algorithm) == Startup.Start(this.npages, this.nframes, this.algorithm)
      ensures Abstract() == Boot(this.npages, this.nframes)
    {
      var frames := nframes;
      if frames > npages {
        frames := npages;
      }
      var occupancy := new int[MaxFrames](_ => 0);
      occupancy[frames] := -1;
      this.npages := npages;
      this.nframes := frames;
      this.algorithm := algorithm;
      freeFrames := occupancy;
      pageTable := map p | p in Pages(npages) :: Entry(0, PROT_NONE);
      diskLog := [];
      new;
      assert freeFrames[..] == Boot(this.npages, this.nframes).freeFrames;
    }

    /**
      `page_fault_handler(pt, page)` (main.c:27-64). The frame count must be
      positive: with none the program divides by zero at main.c:36.
     */
    method PageFaultHandler(page: int)
      requires Valid() && 0 < nframes && 0 <= page < npages
      modifies this`pageTable, this`diskLog, freeFrames
      ensures Valid()
      ensures Abstract() == Fault(old(Abstract()), page)
    {
      var bits := pageTable[page].bits;
      if bits == PROT_NONE {
        var myframe := page % nframes;
        var newBits := pageTable[page].bits;
        var occupant := freeFrames[myframe];
        // the page-table and disk calls of either branch, collected in locals
        var table, log := pageTable, diskLog;
        if occupant != page && newBits != 0 {
          // write the old occupant back and strip its access (main.c:42-45)
          log := log + [DiskWrite(occupant, page)];
          log := log + [DiskRead(page, page)];
          table := table[page := Entry(myframe, PROT_READ)];
          table := table[occupant := Entry(0, 0)];
        } else {
          table := table[page := Entry(myframe, PROT_READ)];
          log := log + [DiskRead(page, myframe)];
        }
        pageTable, diskLog := table, log;
        freeFrames[page % nframes] := page;
      } else if bits == PROT_READ {
        pageTable := pageTable[page := Entry(page % nframes, PROT_READ_WRITE)];
        freeFrames[page % nframes] := page;
      }
    }
  }

  /**
    The start of `main` (main.c:68-82): with the wrong argument count it
    returns `UsageExit` before any state exists (no object), otherwise it
    sets up the process state and goes on with the simulation (status 0
    here stands for "not exited").
   */
  method Launch(argc: int, npages: int, nframes: int, algorithm: string) returns (status: int, vm: VirtualMemory?)
    requires argc == 5 ==> 0 <= Configure(argc, npages, nframes, algorithm).nframes < MaxFrames
    ensures status == UsageExit <==> vm == null
    ensures status == UsageExit <==> Configure(argc, npages, nframes, algorithm).Usage?
    ensures status == 0 || status == UsageExit
    ensures vm != null ==>
      && fresh(vm) && fresh(vm.freeFrames) && vm.Valid()
      && Configure(argc, npages, nframes, algorithm) == Startup.Start(vm.npages, vm.nframes, vm.algorithm)
      && vm.Abstract() == Boot(vm.npages, vm.nframes)
  {
    if argc != 5 {
      return UsageExit, null;
    }
    vm := new VirtualMemory.Start(npages, nframes, algorithm);
    status := 0;
  }
}
